/** Sweeps of the health checker that run while targets come and go: copying the targets, reading a previous
    status and storing the new one are steps of their own, and the check itself holds no lock. */
module HealthThreads {
  import opened HealthHistory
  import opened Wrappers

  /** Where a sweep stands; `left` are the names of its copy of the targets that it has not come to. */
  datatype Pc =
    | Resting
    | Between(left: set<string>)
    | Checking(name: string, previous: Option<HealthStatus>, left: set<string>)

  datatype System = System(targets: set<string>, status: map<string, HealthStatus>, sweeps: map<nat, Pc>)

  const START := System({}, map[], map[])

  datatype Label =
    | Register(name: string)
    | Unregister(name: string)
    | Begin(sweep: nat)
    | Pick(sweep: nat, name: string)
    | Store(sweep: nat, outcome: Outcome)
    | End(sweep: nat)

  function PcOf(s: System, t: nat): Pc {
    if t in s.sweeps then s.sweeps[t] else Resting
  }

  function Previous(s: System, name: string): Option<HealthStatus> {
    if name in s.status then Some(s.status[name]) else None
  }

  predicate Enabled(s: System, l: Label) {
    match l
    case Register(name) => name != ""
    case Unregister(name) => name != ""
    case Begin(t) => PcOf(s, t).Resting?
    case Pick(t, name) => PcOf(s, t).Between? && name in PcOf(s, t).left
    case Store(t, _) => PcOf(s, t).Checking?
    case End(t) => PcOf(s, t) == Between({})
  }

  function Apply(s: System, l: Label): System {
    match l
    case Register(name) => s.(targets := s.targets + {name})
    case Unregister(name) => s.(targets := s.targets - {name}, status := s.status - {name})
    case Begin(t) => s.(sweeps := s.sweeps[t := Between(s.targets)])
    case Pick(t, name) =>
      if PcOf(s, t).Between?
      then s.(sweeps := s.sweeps[t := Checking(name, Previous(s, name), PcOf(s, t).left - {name})])
      else s
    case Store(t, outcome) =>
      if PcOf(s, t).Checking?
      then s.(status := s.status[PcOf(s, t).name := Update(PcOf(s, t).previous, outcome)],
              sweeps := s.sweeps[t := Between(PcOf(s, t).left)])
      else s
    case End(t) => s.(sweeps := s.sweeps[t := Resting])
  }

  /** The system after the labels, taken in order from `s`. */
  function After(s: System, ls: seq<Label>): System
    decreases |ls|
  {
    if ls == [] then s else Apply(After(s, ls[..|ls| - 1]), ls[|ls| - 1])
  }

  predicate Possible(s: System, ls: seq<Label>) {
    forall i | 0 <= i < |ls| :: Enabled(After(s, ls[..i]), ls[i])
  }

  lemma PossiblePrefix(s: System, ls: seq<Label>, i: nat)
    requires Possible(s, ls) && i <= |ls|
    ensures Possible(s, ls[..i])
  {
    forall k | 0 <= k < i ensures Enabled(After(s, ls[..i][..k]), ls[..i][k]) {
      assert ls[..i][..k] == ls[..k];
    }
  }

  lemma PossibleNext(s: System, ls: seq<Label>, l: Label)
    requires Possible(s, ls) && Enabled(After(s, ls), l)
    ensures Possible(s, ls + [l]) && After(s, ls + [l]) == Apply(After(s, ls), l)
  {
    var ls' := ls + [l];
    assert ls'[..|ls|] == ls;
    forall i | 0 <= i < |ls'| ensures Enabled(After(s, ls'[..i]), ls'[i]) {
      if i < |ls| { assert ls'[..i] == ls[..i]; }
    }
  }

  // ----- When unregistering a target is for good -----

  predicate PendingIn(pc: Pc, name: string) {
    match pc
    case Resting => false
    case Between(left) => name in left
    case Checking(n, _, left) => n == name || name in left
  }

  /** Some sweep under way has the name before it. */
  predicate Pending(s: System, name: string) {
    exists t :: t in s.sweeps && PendingIn(s.sweeps[t], name)
  }

  predicate Gone(s: System, name: string) {
    name !in s.targets && name !in s.status && !Pending(s, name)
  }

  lemma GoneStep(s: System, l: Label, name: string)
    requires Gone(s, name) && Enabled(s, l) && l != Register(name)
    ensures Gone(Apply(s, l), name)
  {
    var s' := Apply(s, l);
    forall t | t in s'.sweeps ensures !PendingIn(s'.sweeps[t], name) {
      if t in s.sweeps { assert !PendingIn(s.sweeps[t], name); }
    }
  }

  lemma {:induction false} GoneForGood(s: System, ls: seq<Label>, name: string)
    requires Gone(s, name) && Possible(s, ls) && forall i | 0 <= i < |ls| :: ls[i] != Register(name)
    ensures Gone(After(s, ls), name)
  {
    if ls != [] {
      var n := |ls| - 1;
      PossiblePrefix(s, ls, n);
      GoneForGood(s, ls[..n], name);
      GoneStep(After(s, ls[..n]), ls[n], name);
    }
  }

  /** The status of the name comes back although nobody has registered it again. */
  predicate ComesBack(s: System, ls: seq<Label>, name: string) {
    Possible(s, ls) && (forall i | 0 <= i < |ls| :: ls[i] != Register(name)) && name in After(s, ls).status
  }

  const FAILURE := Outcome(false, 0, 0, 0, None)

  lemma StoreNext(s: System, ls: seq<Label>, t: nat) returns (ls': seq<Label>)
    requires Possible(s, ls) && PcOf(After(s, ls), t).Checking?
    requires forall i | 0 <= i < |ls| :: !ls[i].Register?
    ensures var pc, s' := PcOf(After(s, ls), t), After(s, ls');
            Possible(s, ls') && pc.name in s'.status && PcOf(s', t) == Between(pc.left)
    ensures forall i | 0 <= i < |ls'| :: !ls'[i].Register?
  {
    ls' := ls + [Store(t, FAILURE)];
    PossibleNext(s, ls, Store(t, FAILURE));
  }

  lemma PickNext(s: System, ls: seq<Label>, t: nat, name: string) returns (ls': seq<Label>)
    requires Possible(s, ls) && PcOf(After(s, ls), t).Between? && name in PcOf(After(s, ls), t).left
    requires forall i | 0 <= i < |ls| :: !ls[i].Register?
    ensures Possible(s, ls') && PcOf(After(s, ls'), t).Checking? && PcOf(After(s, ls'), t).name == name
    ensures forall i | 0 <= i < |ls'| :: !ls'[i].Register?
  {
    ls' := ls + [Pick(t, name)];
    PossibleNext(s, ls, Pick(t, name));
  }

  /** A sweep that has the name before it will store a status for it. */
  lemma PendingComesBack(s: System, t: nat, name: string) returns (ls: seq<Label>)
    requires t in s.sweeps && PendingIn(s.sweeps[t], name)
    ensures ComesBack(s, ls, name)
  {
    ls := [];
    if s.sweeps[t].Checking? { ls := StoreNext(s, ls, t); }
    if name !in After(s, ls).status || s.sweeps[t].Between? {
      ls := PickNext(s, ls, t, name);
      ls := StoreNext(s, ls, t);
    }
  }

  /** Unregistering is for good exactly when no sweep under way has the target before it. Otherwise a status that
      belongs to no target can be stored, and nothing but another call of Unregister removes it. */
  lemma UnregisterIsForGood(s: System, name: string)
    ensures (forall ls :: !ComesBack(Apply(s, Unregister(name)), ls, name)) <==> !Pending(s, name)
  {
    var s' := Apply(s, Unregister(name));
    if Pending(s, name) {
      var t :| t in s.sweeps && PendingIn(s.sweeps[t], name);
      var ls := PendingComesBack(s', t, name);
    } else {
      assert Gone(s', name);
      forall ls ensures !ComesBack(s', ls, name) {
        if ComesBack(s', ls, name) { GoneForGood(s', ls, name); }
      }
    }
  }

  // ----- When the counters are those of the results -----

  function Recorded(s: System, results: seq<Outcome>, l: Label, name: string): seq<Outcome> {
    if l == Unregister(name) then []
    else if l.Store? && PcOf(s, l.sweep).Checking? && PcOf(s, l.sweep).name == name then results + [l.outcome]
    else results
  }

  /** The results stored for a name since it was last unregistered. */
  function Results(ls: seq<Label>, name: string): seq<Outcome>
    decreases |ls|
  {
    if ls == [] then []
    else
      var init := ls[..|ls| - 1];
      Recorded(After(START, init), Results(init, name), ls[|ls| - 1], name)
  }

  predicate AllRest(s: System) {
    forall t | t in s.sweeps :: s.sweeps[t].Resting?
  }

  predicate Checks(pc: Pc, name: string) { pc.Checking? && pc.name == name }

  predicate UnderCheck(s: System, name: string) {
    exists t :: t in s.sweeps && Checks(s.sweeps[t], name)
  }

  /** The step starts no second check of the name, and does not unregister it in the middle of a check that
      started from an earlier status. */
  predicate CalmStep(s: System, l: Label, name: string) {
    && (l.Pick? && l.name == name ==> !UnderCheck(s, name))
    && (l == Unregister(name) ==> forall t | t in s.sweeps && Checks(s.sweeps[t], name) :: s.sweeps[t].previous.None?)
  }

  predicate Calm(ls: seq<Label>, name: string) {
    forall i | 0 <= i < |ls| :: CalmStep(After(START, ls[..i]), ls[i], name)
  }

  lemma CalmPrefix(ls: seq<Label>, i: nat, name: string)
    requires Calm(ls, name) && i <= |ls|
    ensures Calm(ls[..i], name)
  {
    forall k | 0 <= k < i ensures CalmStep(After(START, ls[..i][..k]), ls[..i][k], name) {
      assert ls[..i][..k] == ls[..k];
    }
  }

  lemma CalmNext(ls: seq<Label>, l: Label, name: string)
    requires Calm(ls, name) && CalmStep(After(START, ls), l, name)
    ensures Calm(ls + [l], name)
  {
    forall k | 0 <= k <= |ls| ensures CalmStep(After(START, (ls + [l])[..k]), (ls + [l])[k], name) {
      if k < |ls| { assert (ls + [l])[..k] == ls[..k]; } else { assert (ls + [l])[..k] == ls; }
    }
  }

  /** At most one sweep is checking the name, and the status it started from is still the stored one. */
  predicate Current(s: System, name: string) {
    && (forall t, u | t in s.sweeps && u in s.sweeps && Checks(s.sweeps[t], name) && Checks(s.sweeps[u], name) :: t == u)
    && (forall t | t in s.sweeps && Checks(s.sweeps[t], name) :: s.sweeps[t].previous == Previous(s, name))
  }

  lemma CurrentStep(s: System, l: Label, name: string)
    requires Current(s, name) && Enabled(s, l) && CalmStep(s, l, name)
    ensures Current(Apply(s, l), name)
  {
  }

  /** The stored status of the name is the one that the results stored for it give. */
  predicate Truthful(ls: seq<Label>, name: string) {
    Previous(After(START, ls), name) == StatusAfter(Results(ls, name))
  }

  lemma {:induction false} StatusIsOfResults(ls: seq<Label>, name: string)
    requires Possible(START, ls) && Calm(ls, name)
    ensures Current(After(START, ls), name) && Truthful(ls, name)
  {
    if ls != [] {
      var n := |ls| - 1;
      var s, results := After(START, ls[..n]), Results(ls[..n], name);
      PossiblePrefix(START, ls, n);
      CalmPrefix(ls, n, name);
      StatusIsOfResults(ls[..n], name);
      CurrentStep(s, ls[n], name);
      if ls[n].Store? && PcOf(s, ls[n].sweep).name == name {
        assert (results + [ls[n].outcome])[..|results|] == results;
      }
    }
  }

  /** So in a calm run, however many sweeps are under way and whatever is registered and unregistered meanwhile,
      the counters of a target are the trailing run of the results stored for it. */
  lemma CountersDuringSweeps(ls: seq<Label>, name: string, k: nat, healthy: bool)
    requires Possible(START, ls) && Calm(ls, name)
    requires TrailingRun(Results(ls, name), k, healthy)
    ensures var s := After(START, ls);
            && name in s.status && s.status[name].check.healthy == healthy
            && s.status[name].consecutiveSuccesses == (if healthy then k else 0)
            && s.status[name].consecutiveFailures == (if healthy then 0 else k)
  {
    StatusIsOfResults(ls, name);
    CountersAreTrailingRuns(Results(ls, name), k, healthy);
  }

  // ----- A step that is not calm lets checks on their way make the status wrong -----

  predicate OnlyStores(ms: seq<Label>) {
    forall i | 0 <= i < |ms| :: ms[i].Store?
  }

  lemma Next(ls: seq<Label>, l: Label, name: string) returns (ls': seq<Label>)
    requires Possible(START, ls) && Enabled(After(START, ls), l)
    ensures ls' == ls + [l] && Possible(START, ls') && After(START, ls') == Apply(After(START, ls), l)
    ensures Results(ls', name) == Recorded(After(START, ls), Results(ls, name), l, name)
  {
    ls' := ls + [l];
    PossibleNext(START, ls, l);
    assert ls'[..|ls|] == ls;
  }

  lemma StatusAfterNext(results: seq<Outcome>, o: Outcome)
    ensures StatusAfter(results + [o]) == Some(Update(StatusAfter(results), o))
  {
    assert (results + [o])[..|results|] == results;
  }

  lemma TwoStores(s: System, t: nat, u: nat, name: string)
    requires t in s.sweeps && Checks(s.sweeps[t], name) && u in s.sweeps && Checks(s.sweeps[u], name) && t != u
    ensures var s' := Apply(s, Store(t, FAILURE));
            && u in s'.sweeps && s'.sweeps[u] == s.sweeps[u]
            && Previous(Apply(s', Store(u, FAILURE)), name) == Some(Update(s.sweeps[u].previous, FAILURE))
  {
  }

  lemma FailuresAdd(p: Option<HealthStatus>)
    ensures Update(Some(Update(p, FAILURE)), FAILURE) != Update(p, FAILURE)
  {
  }

  /** Two sweeps that started from the same status of a name count one failure for two. */
  lemma TwoChecksLoseOne(ls: seq<Label>, t: nat, u: nat, name: string) returns (ms: seq<Label>)
    requires Possible(START, ls) && Truthful(ls, name) && t != u
    requires var s := After(START, ls);
             && t in s.sweeps && Checks(s.sweeps[t], name) && s.sweeps[t].previous == Previous(s, name)
             && u in s.sweeps && Checks(s.sweeps[u], name) && s.sweeps[u].previous == Previous(s, name)
    ensures OnlyStores(ms) && Possible(START, ls + ms) && !Truthful(ls + ms, name)
  {
    var results, p := Results(ls, name), Previous(After(START, ls), name);
    TwoStores(After(START, ls), t, u, name);
    FailuresAdd(p);
    var l1 := Next(ls, Store(t, FAILURE), name);
    var l2 := Next(l1, Store(u, FAILURE), name);
    ms := [Store(t, FAILURE), Store(u, FAILURE)];
    assert l2 == ls + ms;
    StatusAfterNext(results, FAILURE);
    StatusAfterNext(results + [FAILURE], FAILURE);
  }

  /** A check that started from a status of before an Unregister counts on from it. */
  lemma OldStatusCountsOn(ls: seq<Label>, t: nat, name: string) returns (ms: seq<Label>)
    requires Possible(START, ls) && Results(ls, name) == []
    requires var s := After(START, ls);
             && t in s.sweeps && Checks(s.sweeps[t], name) && s.sweeps[t].previous.Some?
             && s.sweeps[t].previous.value.consecutiveSuccesses >= 0 && s.sweeps[t].previous.value.consecutiveFailures >= 0
             && (s.sweeps[t].previous.value.check.healthy <==> s.sweeps[t].previous.value.consecutiveSuccesses > 0)
             && (s.sweeps[t].previous.value.check.healthy <==> s.sweeps[t].previous.value.consecutiveFailures == 0)
    ensures OnlyStores(ms) && Possible(START, ls + ms) && !Truthful(ls + ms, name)
  {
    var o := After(START, ls).sweeps[t].previous.value.check;
    ms := [Store(t, o)];
    var ls' := Next(ls, Store(t, o), name);
    StatusAfterNext([], o);
    assert [] + [o] == [o];
  }

  lemma NotCalmIsWrong(ls: seq<Label>, l: Label, name: string) returns (ms: seq<Label>)
    requires Possible(START, ls) && Calm(ls, name) && Enabled(After(START, ls), l) && !CalmStep(After(START, ls), l, name)
    ensures OnlyStores(ms) && Possible(START, ls + [l] + ms) && !Truthful(ls + [l] + ms, name)
  {
    var s := After(START, ls);
    StatusIsOfResults(ls, name);
    var ls' := Next(ls, l, name);
    if l.Pick? {
      var t :| t in s.sweeps && Checks(s.sweeps[t], name);
      ms := TwoChecksLoseOne(ls', t, l.sweep, name);
    } else {
      var t :| t in s.sweeps && Checks(s.sweeps[t], name) && s.sweeps[t].previous.Some?;
      ExactlyOneCounter(Results(ls, name));
      ms := OldStatusCountsOn(ls', t, name);
    }
  }

  lemma {:induction false} StoresAreCalm(ls: seq<Label>, ms: seq<Label>, name: string)
    requires Calm(ls, name) && OnlyStores(ms)
    ensures Calm(ls + ms, name)
  {
    if ms == [] {
      assert ls + ms == ls;
    } else {
      var n := |ms| - 1;
      StoresAreCalm(ls, ms[..n], name);
      CalmNext(ls + ms[..n], ms[n], name);
      assert ls + ms[..n] + [ms[n]] == ls + ms;
    }
  }

  /** Whenever the checks on their way come in, with whatever results, the status of the name is that of its results. */
  ghost predicate TruthfulThroughout(ls: seq<Label>, name: string) {
    forall i: nat, ms | i <= |ls| && OnlyStores(ms) && Possible(START, ls[..i] + ms) :: Truthful(ls[..i] + ms, name)
  }

  lemma {:induction false} FirstDisturbance(ls: seq<Label>, name: string) returns (i: nat)
    requires !Calm(ls, name)
    ensures i < |ls| && Calm(ls[..i], name) && !CalmStep(After(START, ls[..i]), ls[i], name)
  {
    var n := |ls| - 1;
    var init, last := ls[..n], ls[n];
    assert init + [last] == ls;
    if Calm(init, name) {
      i := n;
      if CalmStep(After(START, init), last, name) { CalmNext(init, last, name); }
    } else {
      i := FirstDisturbance(init, name);
      assert init[..i] == ls[..i];
    }
  }

  lemma CalmIsTruthful(ls: seq<Label>, i: nat, ms: seq<Label>, name: string)
    requires Calm(ls, name) && i <= |ls| && OnlyStores(ms) && Possible(START, ls[..i] + ms)
    ensures Truthful(ls[..i] + ms, name)
  {
    CalmPrefix(ls, i, name);
    StoresAreCalm(ls[..i], ms, name);
    StatusIsOfResults(ls[..i] + ms, name);
  }

  lemma DisturbedIsWrong(ls: seq<Label>, name: string) returns (i: nat, ms: seq<Label>)
    requires Possible(START, ls) && !Calm(ls, name)
    ensures i <= |ls| && OnlyStores(ms) && Possible(START, ls[..i] + ms) && !Truthful(ls[..i] + ms, name)
  {
    var n := FirstDisturbance(ls, name);
    PossiblePrefix(START, ls, n);
    ms := NotCalmIsWrong(ls[..n], ls[n], name);
    i := n + 1;
    assert ls[..n] + [ls[n]] == ls[..i];
  }

  /** The exact condition: the status of a target can be relied on throughout an interleaving if and only if no check
      of it is started while another is on its way, and it is not unregistered during a check that started from an
      earlier status. Anything else sweeps do, side by side or not, is harmless. */
  lemma TruthfulExactlyWhenCalm(ls: seq<Label>, name: string)
    requires Possible(START, ls)
    ensures TruthfulThroughout(ls, name) <==> Calm(ls, name)
  {
    if Calm(ls, name) {
      forall i: nat, ms | i <= |ls| && OnlyStores(ms) && Possible(START, ls[..i] + ms)
        ensures Truthful(ls[..i] + ms, name)
      {
        CalmIsTruthful(ls, i, ms, name);
      }
    } else {
      var i, ms := DisturbedIsWrong(ls, name);
      assert !TruthfulThroughout(ls, name);
    }
  }

  // ----- Both disturbances happen -----

  /** A run that ends with the name registered, the given status and results stored for it, and sweep 0 at `pc`. */
  predicate Reaches(ls: seq<Label>, name: string, status: Option<HealthStatus>, results: seq<Outcome>, pc: Pc) {
    && Possible(START, ls) && After(START, ls).targets == {name} && Previous(After(START, ls), name) == status
    && Results(ls, name) == results && PcOf(After(START, ls), 0) == pc && After(START, ls).sweeps.Keys == {0}
  }

  lemma Onwards(ls: seq<Label>, l: Label, name: string) returns (ls': seq<Label>)
    requires Possible(START, ls) && Enabled(After(START, ls), l)
    ensures Possible(START, ls') && After(START, ls') == Apply(After(START, ls), l)
    ensures Results(ls', name) == Recorded(After(START, ls), Results(ls, name), l, name)
  {
    ls' := Next(ls, l, name);
  }

  lemma NextCheck(ls: seq<Label>, name: string, status: Option<HealthStatus>, results: seq<Outcome>)
    returns (ls': seq<Label>)
    requires Reaches(ls, name, status, results, Resting)
    ensures Reaches(ls', name, status, results, Checking(name, status, {}))
  {
    ls' := Onwards(ls, Begin(0), name);
    assert Reaches(ls', name, status, results, Between({name}));
    ls' := Onwards(ls', Pick(0, name), name);
  }

  lemma CheckDone(ls: seq<Label>, name: string, status: Option<HealthStatus>, results: seq<Outcome>)
    returns (ls': seq<Label>)
    requires Reaches(ls, name, status, results, Checking(name, status, {}))
    ensures Reaches(ls', name, Some(Update(status, FAILURE)), results + [FAILURE], Resting)
  {
    ls' := Onwards(ls, Store(0, FAILURE), name);
    assert Reaches(ls', name, Some(Update(status, FAILURE)), results + [FAILURE], Between({}));
    ls' := Onwards(ls', End(0), name);
  }

  /** A target and the sweep that is checking it for the first time. */
  lemma FirstCheck(name: string) returns (ls: seq<Label>)
    requires name != ""
    ensures Reaches(ls, name, None, [], Checking(name, None, {}))
  {
    ls := Onwards([], Register(name), name);
    ls := Onwards(ls, Begin(0), name);
    assert Reaches(ls, name, None, [], Between({name}));
    ls := Onwards(ls, Pick(0, name), name);
  }

  /** Unregistered during its check, a target that is no longer registered keeps a status for good. */
  lemma StrayStatusHappens(name: string) returns (ls: seq<Label>)
    requires name != ""
    ensures Possible(START, ls) && name !in After(START, ls).targets && name in After(START, ls).status
    ensures AllRest(After(START, ls))
  {
    ls := FirstCheck(name);
    ls := Onwards(ls, Unregister(name), name);
    ls := Onwards(ls, Store(0, FAILURE), name);
    ls := Onwards(ls, End(0), name);
  }

  /** Unregistered and registered again during a check, a target counts failures of before. */
  lemma OldFailuresCount(name: string) returns (ls: seq<Label>)
    requires name != ""
    ensures Possible(START, ls) && Results(ls, name) == [FAILURE]
    ensures name in After(START, ls).status && After(START, ls).status[name].consecutiveFailures == 2
  {
    ls := FirstCheck(name);
    ls := CheckDone(ls, name, None, []);
    ls := NextCheck(ls, name, Some(Update(None, FAILURE)), [FAILURE]);
    ls := Onwards(ls, Unregister(name), name);
    ls := Onwards(ls, Register(name), name);
    ls := Onwards(ls, Store(0, FAILURE), name);
  }

  lemma BothCheck(name: string) returns (ls: seq<Label>)
    requires name != ""
    ensures Possible(START, ls) && Results(ls, name) == []
    ensures PcOf(After(START, ls), 0) == PcOf(After(START, ls), 1) == Checking(name, None, {})
  {
    ls := FirstCheck(name);
    ls := Onwards(ls, Begin(1), name);
    assert PcOf(After(START, ls), 1) == Between({name}) && Previous(After(START, ls), name) == None;
    ls := Onwards(ls, Pick(1, name), name);
  }

  /** Two sweeps that check a target at a time lose a result. */
  lemma OverlappingSweepsLoseResults(name: string) returns (ls: seq<Label>)
    requires name != ""
    ensures Possible(START, ls) && Results(ls, name) == [FAILURE, FAILURE]
    ensures name in After(START, ls).status && After(START, ls).status[name].consecutiveFailures == 1
  {
    ls := BothCheck(name);
    ls := Onwards(ls, Store(0, FAILURE), name);
    ls := Onwards(ls, Store(1, FAILURE), name);
  }
}
