/** What every run of one circuit satisfies, however its operations are ordered. */
module CircuitTrace {
  import opened CircuitMachine

  /** Thresholds as the configuration loader enforces them. */
  predicate ValidConfig(cfg: Config) {
    cfg.failureThreshold >= 1 && cfg.successThreshold >= 1
  }

  // ----- Counters and timestamps are functions of the trace -----

  predicate ClearsFailures(op: Op) { op.Success? || op.Reset? }

  predicate HalfOpensAt(cfg: Config, ops: seq<Op>, k: nat)
    requires k < |ops|
  {
    Before(cfg, ops, k).state == Open && Before(cfg, ops, k + 1).state == HalfOpen
  }

  predicate ClearsSuccesses(cfg: Config, ops: seq<Op>, k: nat)
    requires k < |ops|
  {
    ops[k].Failure? || ops[k].Reset? || HalfOpensAt(cfg, ops, k)
  }

  lemma {:induction false} FailuresFromTrace(cfg: Config, ops: seq<Op>, mark: nat, n: nat)
    requires mark <= n <= |ops|
    requires mark == 0 || ClearsFailures(ops[mark - 1])
    requires forall k | mark <= k < n :: !ClearsFailures(ops[k])
    ensures Before(cfg, ops, n).failures == Count(IsFailure, ops[mark..n])
  {
    if n == mark {
      if n > 0 { BeforeNext(cfg, ops, n - 1); }
    } else {
      FailuresFromTrace(cfg, ops, mark, n - 1);
      BeforeNext(cfg, ops, n - 1);
      CountNext(IsFailure, ops, mark, n - 1);
    }
  }

  lemma {:induction false} SuccessesFromTrace(cfg: Config, ops: seq<Op>, mark: nat, n: nat)
    requires mark <= n <= |ops|
    requires mark == 0 || ClearsSuccesses(cfg, ops, mark - 1)
    requires forall k | mark <= k < n :: !ClearsSuccesses(cfg, ops, k)
    ensures Before(cfg, ops, n).successes == Count(IsSuccess, ops[mark..n])
  {
    if n == mark {
      if n > 0 { BeforeNext(cfg, ops, n - 1); }
    } else {
      SuccessesFromTrace(cfg, ops, mark, n - 1);
      assert !ClearsSuccesses(cfg, ops, n - 1);
      BeforeNext(cfg, ops, n - 1);
      CountNext(IsSuccess, ops, mark, n - 1);
    }
  }

  lemma {:induction false} LastFailureFromTrace(cfg: Config, ops: seq<Op>, f: nat, n: nat)
    requires f < n <= |ops| && ops[f].Failure?
    requires forall k | f < k < n :: !ops[k].Failure? && !ops[k].Reset?
    ensures Before(cfg, ops, n).lastFailure == At(ops[f].now)
  {
    BeforeNext(cfg, ops, n - 1);
    if n - 1 > f { LastFailureFromTrace(cfg, ops, f, n - 1); }
  }

  lemma {:induction false} ReachableCircuit(cfg: Config, ops: seq<Op>)
    requires ValidConfig(cfg)
    ensures var c := Run(cfg, FRESH, ops);
            && (c.state == Closed ==> c.failures < cfg.failureThreshold)
            && (c.state == HalfOpen ==> c.successes < cfg.successThreshold)
            && (c.state == Open ==> c.lastFailure.At?)
            && c.failures >= 0 && c.successes >= 0
            && (c.failures == 0 || c.successes == 0)
    ensures Run(cfg, FRESH, ops).halfOpenRequests == 0
  {
    if ops != [] { ReachableCircuit(cfg, ops[..|ops| - 1]); }
  }

  /** No configuration ever makes the half-open request counter leave 0. */
  lemma {:induction false} HalfOpenRequestsStayZero(cfg: Config, ops: seq<Op>)
    ensures Run(cfg, FRESH, ops).halfOpenRequests == 0
  {
    if ops != [] { HalfOpenRequestsStayZero(cfg, ops[..|ops| - 1]); }
  }

  // ----- The only way from Open back to Closed -----

  /** The run half-opens at `h`, with Timeout elapsed since the latest failure, at `f`. */
  predicate TimelyHalfOpening(cfg: Config, ops: seq<Op>, f: nat, h: nat)
    requires h < |ops|
  {
    && f < h && ops[f].Failure? && ops[h].Allow?
    && (forall k | f < k < h :: !ops[k].Failure? && !ops[k].Reset?)
    && Passed(ops[f].now, ops[h].now, cfg.timeout)
    && (ops[f].now <= ops[h].now ==> ops[h].now - ops[f].now >= cfg.timeout)
    && HalfOpensAt(cfg, ops, h)
  }

  lemma {:induction false} OpenOrigin(cfg: Config, ops: seq<Op>, n: nat) returns (f: nat)
    requires n <= |ops| && Before(cfg, ops, n).state == Open
    ensures f < n && ops[f].Failure? && (forall k | f < k < n :: !ops[k].Failure? && !ops[k].Reset?)
  {
    BeforeNext(cfg, ops, n - 1);
    if ops[n - 1].Failure? { f := n - 1; } else { f := OpenOrigin(cfg, ops, n - 1); }
  }

  lemma {:induction false} HalfOpenOrigin(cfg: Config, ops: seq<Op>, n: nat) returns (f: nat, h: nat)
    requires n <= |ops| && Before(cfg, ops, n).state == HalfOpen
    ensures h < n && TimelyHalfOpening(cfg, ops, f, h)
    ensures forall k | h < k <= n :: Before(cfg, ops, k).state == HalfOpen
    ensures forall k | h < k < n :: !ops[k].Failure? && !ops[k].Reset?
  {
    BeforeNext(cfg, ops, n - 1);
    if Before(cfg, ops, n - 1).state == HalfOpen {
      f, h := HalfOpenOrigin(cfg, ops, n - 1);
    } else {
      h := n - 1;
      f := OpenOrigin(cfg, ops, h);
      LastFailureFromTrace(cfg, ops, f, h);
      SinceIsElapsed(ops[f].now, ops[h].now, cfg.timeout);
    }
  }

  lemma {:induction false} LastUnclosed(cfg: Config, ops: seq<Op>, i: nat, j: nat) returns (s: nat)
    requires i < j <= |ops|
    requires Before(cfg, ops, i).state != Closed && Before(cfg, ops, j).state == Closed
    ensures i <= s < j && Before(cfg, ops, s).state != Closed && Before(cfg, ops, s + 1).state == Closed
  {
    if Before(cfg, ops, j - 1).state != Closed { s := j - 1; } else { s := LastUnclosed(cfg, ops, i, j - 1); }
  }

  /** A circuit that is Open before `i` and Closed before `j`, with no Reset in between, was half-opened
      at `h` after its timeout and closed at `s` by exactly SuccessThreshold successes and no failure. */
  predicate RecoveredBetween(cfg: Config, ops: seq<Op>, i: nat, j: nat, f: nat, h: nat, s: nat)
    requires j <= |ops|
  {
    && i <= h < s < j
    && TimelyHalfOpening(cfg, ops, f, h)
    && ops[s].Success?
    && Before(cfg, ops, s).state == HalfOpen && Before(cfg, ops, s + 1).state == Closed
    && (forall k | h < k <= s :: !ops[k].Failure? && Before(cfg, ops, k).state == HalfOpen)
    && Count(IsSuccess, ops[h + 1..s + 1]) == cfg.successThreshold
  }

  lemma CloserCounts(cfg: Config, ops: seq<Op>, h: nat, s: nat)
    requires ValidConfig(cfg)
    requires h < s < |ops| && HalfOpensAt(cfg, ops, h) && ops[s].Success?
    requires Before(cfg, ops, s + 1).state == Closed
    requires forall k | h < k <= s :: Before(cfg, ops, k).state == HalfOpen
    requires forall k | h < k < s :: !ops[k].Failure? && !ops[k].Reset?
    ensures Count(IsSuccess, ops[h + 1..s + 1]) == cfg.successThreshold
  {
    SuccessesFromTrace(cfg, ops, h + 1, s);
    ReachableCircuit(cfg, ops[..s]);
    BeforeNext(cfg, ops, s);
    CountNext(IsSuccess, ops, h + 1, s);
  }

  lemma OpenToClosed(cfg: Config, ops: seq<Op>, i: nat, j: nat)
    requires ValidConfig(cfg)
    requires i < j <= |ops|
    requires Before(cfg, ops, i).state == Open && Before(cfg, ops, j).state == Closed
    requires forall k | i <= k < j :: !ops[k].Reset?
    ensures exists f: nat, h: nat, s: nat :: RecoveredBetween(cfg, ops, i, j, f, h, s)
  {
    var s := LastUnclosed(cfg, ops, i, j);
    BeforeNext(cfg, ops, s);
    var f, h := HalfOpenOrigin(cfg, ops, s);
    CloserCounts(cfg, ops, h, s);
    assert RecoveredBetween(cfg, ops, i, j, f, h, s);
  }

  /** Until Timeout has passed since the latest failure, an open circuit refuses and does not move. */
  lemma OpenRefusesUntilTimeout(cfg: Config, ops: seq<Op>, f: nat, n: nat, now: int)
    requires f < n <= |ops| && ops[f].Failure?
    requires forall k | f < k < n :: !ops[k].Failure? && !ops[k].Reset?
    requires Before(cfg, ops, n).state == Open
    ensures Admits(cfg, Before(cfg, ops, n), now) <==> Passed(ops[f].now, now, cfg.timeout)
    ensures ops[f].now <= now ==> (Admits(cfg, Before(cfg, ops, n), now) <==> now - ops[f].now >= cfg.timeout)
    ensures !Passed(ops[f].now, now, cfg.timeout) ==> Step(cfg, Before(cfg, ops, n), Allow(now)) == Before(cfg, ops, n)
  {
    LastFailureFromTrace(cfg, ops, f, n);
    SinceIsElapsed(ops[f].now, now, cfg.timeout);
  }

  // ----- Every change of state, told from the trace -----

  /** A closed circuit opens at the failure that makes FailureThreshold of them since the last success or reset, and
      at no other operation. */
  lemma ClosedOpensAtThreshold(cfg: Config, ops: seq<Op>, mark: nat, n: nat)
    requires mark <= n < |ops| && Before(cfg, ops, n).state == Closed
    requires mark == 0 || ClearsFailures(ops[mark - 1])
    requires forall k | mark <= k < n :: !ClearsFailures(ops[k])
    ensures Before(cfg, ops, n + 1).state ==
            if ops[n].Failure? && Count(IsFailure, ops[mark..n + 1]) >= cfg.failureThreshold then Open else Closed
  {
    FailuresFromTrace(cfg, ops, mark, n);
    BeforeNext(cfg, ops, n);
    CountNext(IsFailure, ops, mark, n);
  }

  /** An open circuit half-opens at the first Allow with Timeout passed since the latest failure, closes by a reset,
      and stays open through anything else. */
  lemma OpenLeavesInTime(cfg: Config, ops: seq<Op>, f: nat, n: nat)
    requires f < n < |ops| && ops[f].Failure? && Before(cfg, ops, n).state == Open
    requires forall k | f < k < n :: !ops[k].Failure? && !ops[k].Reset?
    ensures Before(cfg, ops, n + 1).state ==
            if ops[n].Reset? then Closed
            else if ops[n].Allow? && Passed(ops[f].now, ops[n].now, cfg.timeout) then HalfOpen
            else Open
  {
    LastFailureFromTrace(cfg, ops, f, n);
    SinceIsElapsed(ops[f].now, ops[n].now, cfg.timeout);
    BeforeNext(cfg, ops, n);
  }

  /** A half-open circuit reopens at the first failure, and closes at the success that makes SuccessThreshold of them
      since it half-opened, or by a reset. */
  lemma HalfOpenLeavesAtOnce(cfg: Config, ops: seq<Op>, h: nat, n: nat)
    requires h < n < |ops| && HalfOpensAt(cfg, ops, h)
    requires forall k | h < k <= n :: Before(cfg, ops, k).state == HalfOpen
    requires forall k | h < k < n :: !ops[k].Failure? && !ops[k].Reset?
    ensures Before(cfg, ops, n + 1).state ==
            if ops[n].Failure? then Open
            else if ops[n].Reset? then Closed
            else if ops[n].Success? && Count(IsSuccess, ops[h + 1..n + 1]) >= cfg.successThreshold then Closed
            else HalfOpen
  {
    SuccessesFromTrace(cfg, ops, h + 1, n);
    BeforeNext(cfg, ops, n);
    CountNext(IsSuccess, ops, h + 1, n);
  }

  /** Until the first failure, and from a reset to the next failure, there is no failure time. */
  lemma {:induction false} NoFailureNoStamp(cfg: Config, ops: seq<Op>, mark: nat, n: nat)
    requires mark <= n <= |ops|
    requires mark == 0 || ops[mark - 1].Reset?
    requires forall k | mark <= k < n :: !ops[k].Failure?
    ensures Before(cfg, ops, n).lastFailure == Zero
  {
    if n > 0 { BeforeNext(cfg, ops, n - 1); }
    if n > mark { NoFailureNoStamp(cfg, ops, mark, n - 1); }
  }

  /** What Allow answers after any run: yes if the circuit is closed, what the budget's sign says if it is half-open;
      OpenRefusesUntilTimeout has the open circuit. */
  lemma AnswerAfterRun(cfg: Config, ops: seq<Op>, now: int)
    ensures Run(cfg, FRESH, ops).state == Closed ==> Admits(cfg, Run(cfg, FRESH, ops), now)
    ensures Run(cfg, FRESH, ops).state == HalfOpen ==> (Admits(cfg, Run(cfg, FRESH, ops), now) <==> cfg.maxRequests >= 1)
  {
    HalfOpenRequestsStayZero(cfg, ops);
  }

  // ----- Recovery terminates -----

  predicate Quiet(ops: seq<Op>) {
    forall k | 0 <= k < |ops| :: ops[k].Allow? || ops[k].Success? || ops[k].Read?
  }

  /** From a half-open circuit, failure-free operations close it at exactly the
      (SuccessThreshold - successes)-th success, and until then every Allow is admitted. */
  lemma {:induction false} RecoveryCloses(cfg: Config, c: Circuit, ops: seq<Op>)
    requires c.state == HalfOpen && c.successes < cfg.successThreshold
    requires c.halfOpenRequests == 0 && cfg.maxRequests >= 1
    requires Quiet(ops)
    ensures var d := Run(cfg, c, ops);
            && d.successes == c.successes + Count(IsSuccess, ops)
            && d.halfOpenRequests == 0
            && d.state == (if Count(IsSuccess, ops) >= cfg.successThreshold - c.successes then Closed else HalfOpen)
            && (forall now :: Admits(cfg, d, now))
  {
    if ops != [] { RecoveryCloses(cfg, c, ops[..|ops| - 1]); }
  }

  // ----- The limit on half-open requests -----

  predicate IsAllow(op: Op) { op.Allow? }

  /** How many Allow calls of a run are answered true. */
  function Admissions(cfg: Config, c: Circuit, ops: seq<Op>): nat
    decreases |ops|
  {
    if ops == [] then 0
    else
      var init, op := ops[..|ops| - 1], ops[|ops| - 1];
      Admissions(cfg, c, init) + if op.Allow? && Admits(cfg, Run(cfg, c, init), op.now) then 1 else 0
  }

  /** A stretch of operations every one of which meets the circuit half-open. */
  predicate Spell(cfg: Config, c: Circuit, ops: seq<Op>) {
    forall k | 0 <= k < |ops| :: Run(cfg, c, ops[..k]).state == HalfOpen
  }

  lemma SpellPrefix(cfg: Config, c: Circuit, ops: seq<Op>, n: nat)
    requires Spell(cfg, c, ops) && n <= |ops|
    ensures Spell(cfg, c, ops[..n])
  {
    forall k | 0 <= k < n ensures Run(cfg, c, ops[..n][..k]).state == HalfOpen {
      assert ops[..n][..k] == ops[..k];
    }
  }

  /** A half-open spell admits all of its Allow calls or none: nothing counts them. */
  lemma {:induction false} SpellAdmitsAllOrNone(cfg: Config, c: Circuit, ops: seq<Op>)
    requires c.halfOpenRequests == 0 && Spell(cfg, c, ops)
    ensures Admissions(cfg, c, ops) == if cfg.maxRequests >= 1 then Count(IsAllow, ops) else 0
    ensures Run(cfg, c, ops).halfOpenRequests == 0
  {
    if ops != [] {
      var n := |ops| - 1;
      SpellPrefix(cfg, c, ops, n);
      SpellAdmitsAllOrNone(cfg, c, ops[..n]);
      assert Run(cfg, c, ops[..n]).state == HalfOpen;
    }
  }

  /** The limit on requests in the half-open state is kept by exactly the spells that ask for no more than the
      limit, and by all spells if the limit is 0. */
  lemma HalfOpenLimitKept(cfg: Config, c: Circuit, ops: seq<Op>)
    requires cfg.maxRequests >= 0 && c.halfOpenRequests == 0 && Spell(cfg, c, ops)
    ensures Admissions(cfg, c, ops) <= cfg.maxRequests
            <==> cfg.maxRequests == 0 || Count(IsAllow, ops) <= cfg.maxRequests
  {
    SpellAdmitsAllOrNone(cfg, c, ops);
  }

  function Repeat(op: Op, n: nat): (ops: seq<Op>)
    ensures |ops| == n && forall k | 0 <= k < n :: ops[k] == op
  {
    seq(n, _ => op)
  }

  lemma {:induction false} FailuresOpen(cfg: Config, n: nat)
    requires n >= 1
    ensures var c := Run(cfg, FRESH, Repeat(Failure(0), n));
            && c.failures == n && c.lastFailure == At(0) && c.halfOpenRequests == 0
            && c.state == if n >= cfg.failureThreshold then Open else Closed
  {
    assert Repeat(Failure(0), n)[..n - 1] == Repeat(Failure(0), n - 1);
    if n > 1 { FailuresOpen(cfg, n - 1); }
  }

  lemma {:induction false} AllowsStayHalfOpen(cfg: Config, c: Circuit, now: int, n: nat)
    requires c.state == HalfOpen
    ensures Run(cfg, c, Repeat(Allow(now), n)) == c && Count(IsAllow, Repeat(Allow(now), n)) == n
  {
    if n > 0 {
      assert Repeat(Allow(now), n)[..n - 1] == Repeat(Allow(now), n - 1);
      AllowsStayHalfOpen(cfg, c, now, n - 1);
    }
  }

  /** The limit is broken, by one or by any number, in every configuration that has one: a fresh circuit that
      fails, waits and half-opens admits n more requests in that state, whatever n is. */
  lemma HalfOpenLimitBroken(cfg: Config, n: nat) returns (before: seq<Op>, spell: seq<Op>)
    requires cfg.maxRequests >= 1
    ensures Run(cfg, FRESH, before).state == HalfOpen && Spell(cfg, Run(cfg, FRESH, before), spell)
    ensures |spell| == n && Admissions(cfg, Run(cfg, FRESH, before), spell) == n
  {
    var fails := Repeat(Failure(0), if cfg.failureThreshold >= 1 then cfg.failureThreshold else 1);
    var later := if cfg.timeout >= 0 then cfg.timeout else 0;
    FailuresOpen(cfg, |fails|);
    before := fails + [Allow(later)];
    assert before[..|fails|] == fails;
    var c := Run(cfg, FRESH, before);
    spell := Repeat(Allow(later), n);
    forall k | 0 <= k < n ensures Run(cfg, c, spell[..k]).state == HalfOpen {
      assert spell[..k] == Repeat(Allow(later), k);
      AllowsStayHalfOpen(cfg, c, later, k);
    }
    AllowsStayHalfOpen(cfg, c, later, n);
    SpellAdmitsAllOrNone(cfg, c, spell);
  }

  // ----- A lone client -----

  /** A request of a client: when it asks, and how the request goes if it is admitted. */
  datatype Round = Round(now: int, ok: bool)

  /** A client that reports the outcome of a request only if Allow admitted it. */
  function ClientRound(cfg: Config, c: Circuit, r: Round): Circuit {
    var d := Step(cfg, c, Allow(r.now));
    if Admits(cfg, c, r.now) then Step(cfg, d, if r.ok then Success(r.now) else Failure(r.now)) else d
  }

  function Client(cfg: Config, c: Circuit, rounds: seq<Round>): Circuit {
    if rounds == [] then c
    else ClientRound(cfg, Client(cfg, c, rounds[..|rounds| - 1]), rounds[|rounds| - 1])
  }

  lemma {:induction false} StuckWithoutBudget(cfg: Config, c: Circuit, rounds: seq<Round>)
    requires c.state == HalfOpen && c.halfOpenRequests == 0 && cfg.maxRequests <= 0
    ensures Client(cfg, c, rounds) == c
  {
    if rounds != [] { StuckWithoutBudget(cfg, c, rounds[..|rounds| - 1]); }
  }

  /** A half-open circuit stays as it is for ever, whenever the client asks, exactly without a half-open budget. */
  lemma HalfOpenIsStuckExactlyWithoutBudget(cfg: Config, c: Circuit)
    requires c.state == HalfOpen && c.halfOpenRequests == 0
    ensures (forall rounds :: Client(cfg, c, rounds) == c) <==> cfg.maxRequests <= 0
  {
    if cfg.maxRequests <= 0 {
      forall rounds ensures Client(cfg, c, rounds) == c { StuckWithoutBudget(cfg, c, rounds); }
    } else {
      var rounds := [Round(0, true)];
      assert rounds[..0] == [] && Client(cfg, c, rounds[..0]) == c;
      assert Client(cfg, c, rounds) == Step(cfg, c, Success(0));
    }
  }

  /** A lone client whose requests all succeed, coming to an open circuit whose timeout has elapsed, sees it
      close after SuccessThreshold rounds - unless MaxRequests is below 1 and one success is not enough. */
  lemma {:induction false} LoneClientRecovers(cfg: Config, c: Circuit, rounds: seq<Round>)
    requires ValidConfig(cfg)
    requires c.state == Open && rounds != [] && TimedOut(cfg, c, rounds[0].now)
    requires forall k | 0 <= k < |rounds| :: rounds[k].ok
    ensures Client(cfg, c, rounds).state == Closed
            <==> |rounds| >= cfg.successThreshold && (cfg.maxRequests >= 1 || cfg.successThreshold == 1)
    ensures Client(cfg, c, rounds).state != Closed ==>
              && Client(cfg, c, rounds).state == HalfOpen && Client(cfg, c, rounds).halfOpenRequests == 0
              && Client(cfg, c, rounds).successes == (if cfg.maxRequests >= 1 then |rounds| else 1)
  {
    var init := rounds[..|rounds| - 1];
    if |rounds| == 1 {
      assert init == [] && Client(cfg, c, init) == c;
    } else {
      LoneClientRecovers(cfg, c, init);
    }
  }
}
