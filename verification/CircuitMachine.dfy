/** The state of one circuit as a value, and what each operation of the breaker does to it
    when it runs alone. The class in CircuitBreaker.dfy and the thread model in
    CircuitThreads.dfy are both proved against these functions. */
module CircuitMachine {

  const MAX_DURATION: int := 0x7FFF_FFFF_FFFF_FFFF
  const MIN_DURATION: int := -MAX_DURATION - 1

  /** time.Duration: a 64-bit count of nanoseconds. */
  type Duration = d: int | MIN_DURATION <= d <= MAX_DURATION

  /** A time.Time: the zero value, or an instant in nanoseconds. */
  datatype Stamp = Zero | At(ns: int)

  datatype State = Closed | Open | HalfOpen

  datatype Config = Config(failureThreshold: int, successThreshold: int, timeout: Duration, maxRequests: int)

  /** The fields of a circuit that decide its behaviour. */
  datatype Circuit = Circuit(state: State, failures: int, successes: int, lastFailure: Stamp, halfOpenRequests: int)

  const FRESH := Circuit(Closed, 0, 0, Zero, 0)

  /** time.Since: saturates at the ends of Duration; the zero time is further back than any Duration. */
  function Since(stamp: Stamp, now: int): Duration {
    match stamp
    case Zero => MAX_DURATION
    case At(ns) =>
      if now - ns > MAX_DURATION then MAX_DURATION
      else if now - ns < MIN_DURATION then MIN_DURATION
      else now - ns
  }

  /** From one clock reading to another the time `d` has passed. If the clock has gone back by more than a Duration
      holds, the difference counts as the least one. */
  predicate Passed(from: int, to: int, d: Duration) {
    to - from >= d || d == MIN_DURATION
  }

  /** What comparing Since with a Duration comes to in clock readings; as long as the clock does not go back it is
      the plain difference. */
  lemma SinceIsElapsed(ns: int, now: int, d: Duration)
    ensures Since(At(ns), now) >= d <==> Passed(ns, now, d)
    ensures ns <= now ==> (Since(At(ns), now) >= d <==> now - ns >= d)
  {
  }

  predicate TimedOut(cfg: Config, c: Circuit, now: int) {
    Since(c.lastFailure, now) >= cfg.timeout
  }

  /** One operation on one circuit, with the clock it reads. */
  datatype Op =
    | Allow(now: int)
    | Success(now: int)
    | Failure(now: int)
    | Reset(now: int)
    | Read(now: int)

  /** What Allow answers. */
  predicate Admits(cfg: Config, c: Circuit, now: int) {
    match c.state
    case Closed => true
    case Open => TimedOut(cfg, c, now)
    case HalfOpen => c.halfOpenRequests < cfg.maxRequests
  }

  /** The body of transitionToHalfOpen, between its write lock and its unlock. */
  function TryHalfOpen(cfg: Config, c: Circuit, now: int): Circuit {
    if c.state == Open && TimedOut(cfg, c, now)
    then c.(state := HalfOpen, halfOpenRequests := 0, successes := 0)
    else c
  }

  function Step(cfg: Config, c: Circuit, op: Op): Circuit {
    match op
    case Allow(now) => TryHalfOpen(cfg, c, now)
    case Success(_) =>
      var d := c.(failures := 0, successes := c.successes + 1);
      if c.state == HalfOpen && d.successes >= cfg.successThreshold
      then d.(state := Closed, halfOpenRequests := 0)
      else d
    case Failure(now) =>
      var d := c.(successes := 0, failures := c.failures + 1, lastFailure := At(now));
      (match c.state
       case Closed => if d.failures >= cfg.failureThreshold then d.(state := Open) else d
       case Open => d
       case HalfOpen => d.(state := Open, halfOpenRequests := 0))
    case Reset(_) => FRESH
    case Read(_) => c
  }

  /** The circuit after the operations `ops`, in order, starting from `c`. */
  function Run(cfg: Config, c: Circuit, ops: seq<Op>): Circuit
    decreases |ops|
  {
    if ops == [] then c else Step(cfg, Run(cfg, c, ops[..|ops| - 1]), ops[|ops| - 1])
  }

  /** The circuit before operation `i` of a run from a fresh circuit. */
  function Before(cfg: Config, ops: seq<Op>, i: nat): Circuit
    requires i <= |ops|
  {
    Run(cfg, FRESH, ops[..i])
  }

  lemma BeforeNext(cfg: Config, ops: seq<Op>, i: nat)
    requires i < |ops|
    ensures Before(cfg, ops, i + 1) == Step(cfg, Before(cfg, ops, i), ops[i])
  {
    assert ops[..i + 1][..i] == ops[..i];
  }

  predicate IsSuccess(op: Op) { op.Success? }

  predicate IsFailure(op: Op) { op.Failure? }

  function Count(p: Op -> bool, ops: seq<Op>): nat {
    if ops == [] then 0
    else Count(p, ops[..|ops| - 1]) + if p(ops[|ops| - 1]) then 1 else 0
  }

  lemma CountNext(p: Op -> bool, ops: seq<Op>, i: nat, j: nat)
    requires i <= j < |ops|
    ensures Count(p, ops[i..j + 1]) == Count(p, ops[i..j]) + if p(ops[j]) then 1 else 0
  {
    assert ops[i..j + 1][..j - i] == ops[i..j];
  }
}
