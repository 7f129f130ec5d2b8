/** The breaker as the program has it: circuit objects, created on first use and kept in a map.
    Each method is one call that runs without interference; CircuitThreads.dfy treats interference. */
module CircuitBreakers {
  import opened CircuitMachine
  import opened Wrappers

  class CircuitState {
    var state: State
    var failures: int
    var successes: int
    var lastFailureTime: Stamp
    var lastSuccessTime: Stamp
    var halfOpenRequests: int

    constructor ()
      ensures Value() == FRESH && lastSuccessTime == Zero
    {
      state, failures, successes, halfOpenRequests := Closed, 0, 0, 0;
      lastFailureTime, lastSuccessTime := Zero, Zero;
    }

    ghost function Value(): Circuit
      reads this
    {
      Circuit(state, failures, successes, lastFailureTime, halfOpenRequests)
    }

    /** What transitionToHalfOpen does under the write lock. */
    method TransitionToHalfOpen(config: Config, now: int)
      modifies this
      ensures Value() == TryHalfOpen(config, old(Value()), now) && lastSuccessTime == old(lastSuccessTime)
    {
      if state == Open && Since(lastFailureTime, now) >= config.timeout {
        state := HalfOpen;
        halfOpenRequests := 0;
        successes := 0;
      }
    }

    /** What RecordSuccess does under the write lock. */
    method Succeed(config: Config, now: int)
      modifies this
      ensures Value() == Step(config, old(Value()), Success(now)) && lastSuccessTime == At(now)
    {
      failures := 0;
      successes := successes + 1;
      lastSuccessTime := At(now);
      match state
      case Closed =>
      case Open =>
      case HalfOpen =>
        if successes >= config.successThreshold {
          state := Closed;
          halfOpenRequests := 0;
        }
    }

    /** What RecordFailure does under the write lock. */
    method Fail(config: Config, now: int)
      modifies this
      ensures Value() == Step(config, old(Value()), Failure(now)) && lastSuccessTime == old(lastSuccessTime)
    {
      successes := 0;
      failures := failures + 1;
      lastFailureTime := At(now);
      match state
      case Closed =>
        if failures >= config.failureThreshold {
          state := Open;
        }
      case Open =>
      case HalfOpen =>
        state := Open;
        halfOpenRequests := 0;
    }

    /** What Reset does under the write lock. */
    method Clear(now: int)
      modifies this
      ensures Value() == FRESH && lastSuccessTime == At(now)
    {
      state := Closed;
      failures := 0;
      successes := 0;
      halfOpenRequests := 0;
      lastFailureTime := Zero;
      lastSuccessTime := At(now);
    }
  }

  /** What GetCircuitInfo reports. */
  datatype CircuitInfo = CircuitInfo(
    target: string, circuit: Circuit, lastSuccessTime: Stamp,
    failureThreshold: int, successThreshold: int, timeout: Duration, maxRequests: int)

  class CircuitBreaker {
    const config: Config
    var circuits: map<string, CircuitState>

    constructor (config: Config)
      ensures Valid() && this.config == config && circuits == map[]
    {
      this.config := config;
      circuits := map[];
    }

    ghost predicate Valid()
      reads this
    {
      && "" !in circuits
      && forall s, t | s in circuits && t in circuits && s != t :: circuits[s] != circuits[t]
    }

    /** The map the breaker stands for: total, every target fresh until it is first used. */
    ghost function At(target: string): Circuit
      reads this, circuits.Values
    {
      if target in circuits then circuits[target].Value() else FRESH
    }

    ghost function LastSuccessAt(target: string): Stamp
      reads this, circuits.Values
    {
      if target in circuits then circuits[target].lastSuccessTime else Zero
    }

    /** The circuit of a target: the one in the map, or a new closed one put there. */
    method GetCircuit(target: string) returns (circuit: CircuitState)
      requires Valid() && target != ""
      modifies this
      ensures Valid() && circuits.Keys == old(circuits.Keys) + {target} && circuits[target] == circuit
      ensures forall t | t in old(circuits) :: circuits[t] == old(circuits[t])
      ensures target !in old(circuits) ==> fresh(circuit) && circuit.lastSuccessTime == Zero
      ensures circuit.Value() == old(At(target))
    {
      if target in circuits {
        circuit := circuits[target];
      } else {
        circuit := new CircuitState();
        circuits := circuits[target := circuit];
      }
    }

    method Allow(target: string, now: int) returns (allowed: bool)
      requires Valid()
      modifies this, circuits.Values
      ensures Valid() && fresh(circuits.Values - old(circuits.Values))
      ensures circuits.Keys == old(circuits.Keys) + (if target == "" then {} else {target})
      ensures forall t | t in old(circuits) :: circuits[t] == old(circuits[t])
      ensures allowed == (target != "" && Admits(config, old(At(target)), now))
      ensures target != "" ==> At(target) == Step(config, old(At(target)), Op.Allow(now))
      ensures forall t | t != target :: At(t) == old(At(t))
      ensures forall t :: LastSuccessAt(t) == old(LastSuccessAt(t))
    {
      if target == "" { return false; }
      var circuit := GetCircuit(target);
      match circuit.state
      case Closed =>
        return true;
      case Open =>
        if Since(circuit.lastFailureTime, now) >= config.timeout {
          circuit.TransitionToHalfOpen(config, now);
          return true;
        }
        return false;
      case HalfOpen =>
        return circuit.halfOpenRequests < config.maxRequests;
    }

    method RecordSuccess(target: string, now: int)
      requires Valid()
      modifies this, circuits.Values
      ensures Valid() && fresh(circuits.Values - old(circuits.Values))
      ensures circuits.Keys == old(circuits.Keys) + (if target == "" then {} else {target})
      ensures forall t | t in old(circuits) :: circuits[t] == old(circuits[t])
      ensures target != "" ==> At(target) == Step(config, old(At(target)), Success(now))
      ensures target != "" ==> LastSuccessAt(target) == Stamp.At(now)
      ensures forall t | t != target :: At(t) == old(At(t)) && LastSuccessAt(t) == old(LastSuccessAt(t))
    {
      if target == "" { return; }
      var circuit := GetCircuit(target);
      circuit.Succeed(config, now);
    }

    method RecordFailure(target: string, now: int)
      requires Valid()
      modifies this, circuits.Values
      ensures Valid() && fresh(circuits.Values - old(circuits.Values))
      ensures circuits.Keys == old(circuits.Keys) + (if target == "" then {} else {target})
      ensures forall t | t in old(circuits) :: circuits[t] == old(circuits[t])
      ensures target != "" ==> At(target) == Step(config, old(At(target)), Failure(now))
      ensures forall t | t != target :: At(t) == old(At(t))
      ensures forall t :: LastSuccessAt(t) == old(LastSuccessAt(t))
    {
      if target == "" { return; }
      var circuit := GetCircuit(target);
      circuit.Fail(config, now);
    }

    /** Never creates a circuit, and never moves one: an expired open circuit still reads Open. */
    method GetState(target: string) returns (state: State)
      requires Valid()
      ensures state == At(target).state
    {
      if target == "" || target !in circuits { return Closed; }
      return circuits[target].state;
    }

    /** Resetting a target that has no circuit succeeds and does nothing at all. */
    method Reset(target: string, now: int) returns (r: Result<()>)
      requires Valid()
      modifies circuits.Values
      ensures r.Ok? <==> target != ""
      ensures target != "" ==> At(target) == Step(config, old(At(target)), Op.Reset(now))
      ensures target in circuits ==> LastSuccessAt(target) == Stamp.At(now)
      ensures forall t | t != target :: At(t) == old(At(t)) && LastSuccessAt(t) == old(LastSuccessAt(t))
    {
      if target == "" { return Error("target cannot be empty"); }
      if target !in circuits { return Ok(()); }
      circuits[target].Clear(now);
      return Ok(());
    }

    /** The report agrees with the total map everywhere; the limits are filled in only for a target in use. */
    ghost predicate Reports(target: string, info: CircuitInfo)
      reads this, circuits.Values
    {
      && info.target == target && info.circuit == At(target) && info.lastSuccessTime == LastSuccessAt(target)
      && Config(info.failureThreshold, info.successThreshold, info.timeout, info.maxRequests)
         == if target in circuits then config else Config(0, 0, 0, 0)
    }

    method GetCircuitInfo(target: string) returns (r: Result<CircuitInfo>)
      requires Valid()
      ensures r.Ok? <==> target != ""
      ensures r.Ok? ==> Reports(target, r.value)
    {
      if target == "" { return Error("target cannot be empty"); }
      if target !in circuits {
        return Ok(CircuitInfo(target, FRESH, Zero, 0, 0, 0, 0));
      }
      var info := InfoOf(target, circuits[target]);
      return Ok(info);
    }

    /** Exactly the targets in use, each with the report GetCircuitInfo gives. */
    method GetAllCircuits() returns (result: map<string, CircuitInfo>)
      requires Valid()
      ensures result.Keys == circuits.Keys
      ensures forall t | t in result :: Reports(t, result[t])
    {
      result := map[];
      var left := circuits.Keys;
      while left != {}
        invariant left <= circuits.Keys
        invariant result.Keys == circuits.Keys - left
        invariant forall t | t in result :: Reports(t, result[t])
        decreases |left|
      {
        var target :| target in left;
        var info := InfoOf(target, circuits[target]);
        result := result[target := info];
        left := left - {target};
      }
    }

    method InfoOf(target: string, circuit: CircuitState) returns (info: CircuitInfo)
      requires target in circuits && circuits[target] == circuit
      ensures Reports(target, info)
    {
      var value := Circuit(circuit.state, circuit.failures, circuit.successes,
                           circuit.lastFailureTime, circuit.halfOpenRequests);
      info := CircuitInfo(target, value, circuit.lastSuccessTime, config.failureThreshold,
                          config.successThreshold, config.timeout, config.maxRequests);
    }
  }
}
