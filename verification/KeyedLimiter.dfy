/** Buckets per key as a value: what each operation of the rate limiter does to them, and why neither
    Cleanup nor Stats can be noticed by anyone who calls Allow, as long as calls are made one at a time.
    What threads can notice of a Cleanup is in LimiterThreads.dfy. */
module KeyedLimiter {
  import TB = TokenBucket

  datatype Config = Config(rate: TB.Rate, burst: int)

  predicate ValidConfig(cfg: Config) { cfg.burst >= 1 }

  type Store = map<string, TB.Bucket>

  /** The operations, each with the clock it reads; `cancelled` is the state of its context. */
  datatype Op =
    | Allow(key: string, cancelled: bool, now: int)
    | Stats(key: string, now: int)
    | Reset(key: string, now: int)
    | Cleanup(cancelled: bool, now: int)

  datatype Output = Verdict(allowed: bool) | Report(stats: TB.Stats) | Outcome(ok: bool)

  /** getLimiter: the key's bucket, or a new full one. */
  function BucketFor(cfg: Config, m: Store, key: string, now: int): TB.Bucket {
    if key in m then m[key] else TB.New(cfg.rate, cfg.burst, now)
  }

  /** Stats for the empty key: a made-up answer that says nothing is left. */
  function NoKeyStats(cfg: Config, now: int): TB.Stats {
    TB.Stats(cfg.burst, 0, now + 3_600_000_000_000, 1_000_000_000)
  }

  function StatsOf(cfg: Config, m: Store, key: string, now: int): TB.Stats {
    if key == "" then NoKeyStats(cfg, now) else TB.StatsOf(BucketFor(cfg, m, key, now), now)
  }

  function Swept(m: Store, now: int): Store {
    map key | key in m && !TB.Idle(m[key], now) :: m[key]
  }

  function Step(cfg: Config, m: Store, op: Op): Store {
    match op
    case Allow(key, cancelled, now) =>
      if key == "" || cancelled then m else m[key := TB.Allow(BucketFor(cfg, m, key, now), now)]
    case Stats(key, now) => if key == "" then m else m[key := BucketFor(cfg, m, key, now)]
    case Reset(key, _) => if key == "" then m else m - {key}
    case Cleanup(cancelled, now) => if cancelled then m else Swept(m, now)
  }

  function OutputOf(cfg: Config, m: Store, op: Op): Output {
    match op
    case Allow(key, cancelled, now) =>
      Verdict(key != "" && !cancelled && TB.Admits(BucketFor(cfg, m, key, now), now))
    case Stats(key, now) => Report(StatsOf(cfg, m, key, now))
    case Reset(key, _) => Outcome(key != "")
    case Cleanup(cancelled, _) => Outcome(!cancelled)
  }

  // ----- What callers can tell about a store -----

  predicate WellFormed(cfg: Config, m: Store, now: int) {
    forall key | key in m ::
      m[key].maxTokens == cfg.burst && m[key].refillRate == cfg.rate && m[key].lastRefill <= now
      && 0.0 <= m[key].tokens <= cfg.burst as real
  }

  /** The tokens a key would find now; a key without a bucket finds a full one. */
  function LevelFor(cfg: Config, m: Store, key: string, now: int): real {
    TB.Level(BucketFor(cfg, m, key, now), now)
  }

  ghost predicate Alike(cfg: Config, m: Store, n: Store, now: int) {
    && WellFormed(cfg, m, now) && WellFormed(cfg, n, now)
    && forall key :: LevelFor(cfg, m, key, now) == LevelFor(cfg, n, key, now)
  }

  lemma LevelRange(cfg: Config, m: Store, key: string, now: int)
    requires ValidConfig(cfg) && WellFormed(cfg, m, now)
    ensures 0.0 <= LevelFor(cfg, m, key, now) <= cfg.burst as real
    ensures key !in m ==> LevelFor(cfg, m, key, now) == cfg.burst as real
  {
    var b := BucketFor(cfg, m, key, now);
    TB.EarnedGrows(cfg.rate, b.lastRefill, now);
    assert key !in m ==> TB.Earned(cfg.rate, now, now) == 0.0;
  }

  lemma LevelForLater(cfg: Config, m: Store, key: string, now: int, later: int)
    requires ValidConfig(cfg) && WellFormed(cfg, m, now) && now <= later
    ensures LevelFor(cfg, m, key, later) ==
            TB.Min(LevelFor(cfg, m, key, now) + TB.Earned(cfg.rate, now, later), cfg.burst as real)
  {
    TB.EarnedGrows(cfg.rate, now, later);
    if key in m {
      TB.LevelLater(m[key], now, later);
    } else {
      assert TB.Earned(cfg.rate, now, now) == 0.0 && TB.Earned(cfg.rate, later, later) == 0.0;
    }
  }

  /** Stores that are alike stay alike as time passes. */
  lemma AlikeLater(cfg: Config, m: Store, n: Store, now: int, later: int)
    requires ValidConfig(cfg) && Alike(cfg, m, n, now) && now <= later
    ensures Alike(cfg, m, n, later)
  {
    forall key ensures LevelFor(cfg, m, key, later) == LevelFor(cfg, n, key, later) {
      LevelForLater(cfg, m, key, now, later);
      LevelForLater(cfg, n, key, now, later);
    }
  }

  lemma WellFormedStep(cfg: Config, m: Store, op: Op)
    requires ValidConfig(cfg) && WellFormed(cfg, m, op.now)
    ensures WellFormed(cfg, Step(cfg, m, op), op.now)
  {
    match op
    case Allow(key, cancelled, now) => LevelRange(cfg, m, key, now);
    case Stats(key, now) =>
    case Reset(key, now) =>
    case Cleanup(cancelled, now) =>
  }

  lemma LevelForStep(cfg: Config, m: Store, op: Op, key: string)
    requires ValidConfig(cfg) && WellFormed(cfg, m, op.now)
    ensures LevelFor(cfg, Step(cfg, m, op), key, op.now) ==
            match op
            case Allow(k, cancelled, now) =>
              if key == k && k != "" && !cancelled && LevelFor(cfg, m, key, now) >= 1.0
              then LevelFor(cfg, m, key, now) - 1.0 else LevelFor(cfg, m, key, now)
            case Reset(k, now) => if key == k && k != "" then cfg.burst as real else LevelFor(cfg, m, key, now)
            case _ => LevelFor(cfg, m, key, op.now)
  {
    LevelRange(cfg, m, key, op.now);
    match op
    case Allow(k, cancelled, now) => if key == k { TB.LevelAfterAllow(BucketFor(cfg, m, k, now), now); }
    case Stats(k, now) =>
    case Reset(k, now) => assert TB.Earned(cfg.rate, now, now) == 0.0;
    case Cleanup(cancelled, now) =>
      assert TB.Earned(cfg.rate, now, now) == 0.0;
      if key in m && TB.Idle(m[key], now) { TB.EarnedGrows(cfg.rate, m[key].lastRefill, now); }
  }

  /** Callers cannot tell stores apart that are alike, and the same operation leaves them alike. */
  lemma AlikeStep(cfg: Config, m: Store, n: Store, op: Op)
    requires ValidConfig(cfg) && Alike(cfg, m, n, op.now)
    ensures OutputOf(cfg, m, op) == OutputOf(cfg, n, op)
    ensures Alike(cfg, Step(cfg, m, op), Step(cfg, n, op), op.now)
  {
    WellFormedStep(cfg, m, op);
    WellFormedStep(cfg, n, op);
    forall key ensures LevelFor(cfg, Step(cfg, m, op), key, op.now) == LevelFor(cfg, Step(cfg, n, op), key, op.now) {
      LevelForStep(cfg, m, op, key);
      LevelForStep(cfg, n, op, key);
    }
    if op.Allow? || op.Stats? {
      assert LevelFor(cfg, m, op.key, op.now) == LevelFor(cfg, n, op.key, op.now);
    }
  }

  /** Cleanup and Stats leave a store alike to what it was. */
  lemma SilentStep(cfg: Config, m: Store, op: Op)
    requires ValidConfig(cfg) && WellFormed(cfg, m, op.now) && (op.Cleanup? || op.Stats?)
    ensures Alike(cfg, Step(cfg, m, op), m, op.now)
  {
    WellFormedStep(cfg, m, op);
    forall key ensures LevelFor(cfg, Step(cfg, m, op), key, op.now) == LevelFor(cfg, m, key, op.now) {
      LevelForStep(cfg, m, op, key);
    }
  }

  // ----- Runs -----

  function Run(cfg: Config, m: Store, ops: seq<Op>): Store
    decreases |ops|
  {
    if ops == [] then m else Run(cfg, Step(cfg, m, ops[0]), ops[1..])
  }

  function Outputs(cfg: Config, m: Store, ops: seq<Op>): (r: seq<Output>)
    ensures |r| == |ops|
    decreases |ops|
  {
    if ops == [] then [] else [OutputOf(cfg, m, ops[0])] + Outputs(cfg, Step(cfg, m, ops[0]), ops[1..])
  }

  /** What is left of a sequence when the elements not marked `keep` are struck out. */
  function Kept<T>(xs: seq<T>, keep: seq<bool>): seq<T>
    requires |keep| == |xs|
  {
    if xs == [] then [] else (if keep[0] then [xs[0]] else []) + Kept(xs[1..], keep[1..])
  }

  predicate ClockRuns(start: int, ops: seq<Op>) {
    && (forall i | 0 <= i < |ops| :: start <= ops[i].now)
    && (forall i, j | 0 <= i < j < |ops| :: ops[i].now <= ops[j].now)
  }

  lemma {:induction false} StruckOut(cfg: Config, m: Store, n: Store, ops: seq<Op>, keep: seq<bool>, start: int)
    requires ValidConfig(cfg) && Alike(cfg, m, n, start) && |keep| == |ops| && ClockRuns(start, ops)
    requires forall i | 0 <= i < |ops| && !keep[i] :: ops[i].Cleanup? || ops[i].Stats?
    ensures Kept(Outputs(cfg, m, ops), keep) == Outputs(cfg, n, Kept(ops, keep))
    decreases |ops|
  {
    if ops != [] {
      var op, rest := ops[0], ops[1..];
      AlikeLater(cfg, m, n, start, op.now);
      if keep[0] {
        AlikeStep(cfg, m, n, op);
        StruckOut(cfg, Step(cfg, m, op), Step(cfg, n, op), rest, keep[1..], op.now);
        assert Kept(ops, keep)[1..] == Kept(rest, keep[1..]);
      } else {
        SilentStep(cfg, m, op);
        StruckOut(cfg, Step(cfg, m, op), n, rest, keep[1..], op.now);
        assert Kept(ops, keep) == Kept(rest, keep[1..]);
      }
    }
  }

  /** Strike any Cleanup and Stats calls out of a run: every other call gets the same answer as before. */
  lemma CleanupAndStatsUnobservable(cfg: Config, ops: seq<Op>, keep: seq<bool>, start: int)
    requires ValidConfig(cfg) && |keep| == |ops| && ClockRuns(start, ops)
    requires forall i | 0 <= i < |ops| && !keep[i] :: ops[i].Cleanup? || ops[i].Stats?
    ensures Kept(Outputs(cfg, map[], ops), keep) == Outputs(cfg, map[], Kept(ops, keep))
  {
    StruckOut(cfg, map[], map[], ops, keep, start);
  }

  /** Keys do not touch each other: the answers for one key come from its own calls alone. */
  predicate Concerns(op: Op, key: string) {
    match op
    case Allow(k, _, _) => k == key
    case Stats(k, _) => k == key
    case Reset(k, _) => k == key
    case Cleanup(_, _) => true
  }

  predicate SameAt(m: Store, n: Store, key: string) {
    (key in m <==> key in n) && (key in m ==> m[key] == n[key])
  }

  lemma ConcernedStep(cfg: Config, m: Store, n: Store, key: string, op: Op)
    requires SameAt(m, n, key)
    ensures SameAt(Step(cfg, m, op), Step(cfg, n, op), key)
    ensures Concerns(op, key) ==> OutputOf(cfg, m, op) == OutputOf(cfg, n, op)
  {
  }

  lemma UnconcernedStep(cfg: Config, m: Store, n: Store, key: string, op: Op)
    requires SameAt(m, n, key) && !Concerns(op, key)
    ensures SameAt(Step(cfg, m, op), n, key)
  {
  }

  lemma {:induction false} KeysAreIndependent(cfg: Config, m: Store, n: Store, key: string, ops: seq<Op>, keep: seq<bool>)
    requires |keep| == |ops| && forall i | 0 <= i < |ops| :: keep[i] <==> Concerns(ops[i], key)
    requires SameAt(m, n, key)
    ensures Kept(Outputs(cfg, m, ops), keep) == Outputs(cfg, n, Kept(ops, keep))
    decreases |ops|
  {
    if ops != [] {
      var op, rest := ops[0], ops[1..];
      if keep[0] {
        ConcernedStep(cfg, m, n, key, op);
        KeysAreIndependent(cfg, Step(cfg, m, op), Step(cfg, n, op), key, rest, keep[1..]);
        assert Kept(ops, keep)[1..] == Kept(rest, keep[1..]);
      } else {
        UnconcernedStep(cfg, m, n, key, op);
        KeysAreIndependent(cfg, Step(cfg, m, op), n, key, rest, keep[1..]);
        assert Kept(ops, keep) == Kept(rest, keep[1..]);
      }
    }
  }

  /** Cleanup never frees a key that has ever been served, short of a Reset: its stored tokens stay below the
      burst, since refilling happens in allow only. */
  lemma {:induction false} ServedKeyIsNeverSwept(cfg: Config, m: Store, key: string, ops: seq<Op>)
    requires ValidConfig(cfg)
    requires key in m && m[key].maxTokens == cfg.burst && m[key].tokens < cfg.burst as real
    requires forall i | 0 <= i < |ops| :: !(ops[i].Reset? && ops[i].key == key)
    ensures key in Run(cfg, m, ops) && Run(cfg, m, ops)[key].tokens < cfg.burst as real
    decreases |ops|
  {
    if ops != [] { ServedKeyIsNeverSwept(cfg, Step(cfg, m, ops[0]), key, ops[1..]); }
  }

  lemma ServedKeyIsShort(cfg: Config, m: Store, key: string, now: int)
    requires ValidConfig(cfg) && key != "" && (key in m ==> m[key].maxTokens == cfg.burst)
    ensures var m' := Step(cfg, m, Allow(key, false, now));
            key in m' && m'[key].maxTokens == cfg.burst && m'[key].tokens < cfg.burst as real
  {
  }

  // ----- Exactly which keys Cleanup removes -----

  lemma {:induction false} RunNext(cfg: Config, m: Store, ops: seq<Op>, j: nat)
    requires j < |ops|
    ensures Run(cfg, m, ops[..j + 1]) == Step(cfg, Run(cfg, m, ops[..j]), ops[j])
    decreases |ops|
  {
    var rest := ops[1..];
    assert ops[..j + 1][1..] == rest[..j];
    if j > 0 {
      assert ops[..j][1..] == rest[..j - 1];
      RunNext(cfg, Step(cfg, m, ops[0]), rest, j - 1);
    }
  }

  predicate Serves(op: Op, key: string) { op.Allow? && op.key == key && key != "" && !op.cancelled }

  /** Operation `i` of a run made the bucket that the key has at the end. */
  predicate MadeAt(cfg: Config, ops: seq<Op>, i: nat, key: string) {
    && i < |ops| && key !in Run(cfg, map[], ops[..i])
    && forall j | i < j <= |ops| :: key in Run(cfg, map[], ops[..j])
  }

  lemma {:induction false} MakingOf(cfg: Config, ops: seq<Op>, n: nat, key: string) returns (i: nat)
    requires n <= |ops| && key in Run(cfg, map[], ops[..n])
    ensures i < n && key !in Run(cfg, map[], ops[..i]) && forall j | i < j <= n :: key in Run(cfg, map[], ops[..j])
  {
    if key in Run(cfg, map[], ops[..n - 1]) { i := MakingOf(cfg, ops, n - 1, key); } else { i := n - 1; }
  }

  lemma BucketStep(cfg: Config, m: Store, op: Op, key: string)
    requires ValidConfig(cfg) && key in m && m[key].maxTokens == cfg.burst && key in Step(cfg, m, op)
    ensures var b := Step(cfg, m, op)[key];
            if Serves(op, key) then b.maxTokens == cfg.burst && b.tokens < cfg.burst as real else b == m[key]
  {
  }

  /** A bucket made by Stats and not asked since is as it was made; any other is short of the burst. */
  lemma {:induction false} BucketSince(cfg: Config, ops: seq<Op>, i: nat, n: nat, key: string)
    requires ValidConfig(cfg) && MadeAt(cfg, ops, i, key) && i < n <= |ops|
    ensures var b := Run(cfg, map[], ops[..n])[key];
            if ops[i].Stats? && (forall j | i < j < n :: !Serves(ops[j], key))
            then b == TB.New(cfg.rate, cfg.burst, ops[i].now)
            else b.maxTokens == cfg.burst && b.tokens < cfg.burst as real
  {
    RunNext(cfg, map[], ops, n - 1);
    if n - 1 > i {
      BucketSince(cfg, ops, i, n - 1, key);
      BucketStep(cfg, Run(cfg, map[], ops[..n - 1]), ops[n - 1], key);
    }
  }

  /** After any run from the empty limiter, Cleanup removes exactly the keys whose bucket was made by Stats, has
      never been asked since, and was made more than the idle time ago. So nothing that serves requests, however
      long ago, is ever removed. */
  lemma CleanupRemovesExactly(cfg: Config, ops: seq<Op>, key: string, now: int)
    requires ValidConfig(cfg)
    ensures var m := Run(cfg, map[], ops);
            key in m && key !in Step(cfg, m, Cleanup(false, now))
            <==> exists i: nat :: MadeAt(cfg, ops, i, key) && ops[i].Stats?
                                  && (forall j | i < j < |ops| :: !Serves(ops[j], key))
                                  && now - ops[i].now > 30 * 60 * 1_000_000_000
  {
    var m := Run(cfg, map[], ops);
    assert ops[..|ops|] == ops;
    if key in m {
      var i := MakingOf(cfg, ops, |ops|, key);
      assert MadeAt(cfg, ops, i, key);
      BucketSince(cfg, ops, i, |ops|, key);
    }
    forall i: nat | MadeAt(cfg, ops, i, key) && ops[i].Stats? && forall j | i < j < |ops| :: !Serves(ops[j], key)
      ensures key in m && m[key] == TB.New(cfg.rate, cfg.burst, ops[i].now)
    {
      BucketSince(cfg, ops, i, |ops|, key);
    }
  }

  /** It happens: a key that was only ever looked at, with Stats, is gone after half an hour. */
  lemma UnusedKeyIsSwept(cfg: Config, key: string, now: int)
    requires ValidConfig(cfg) && key != ""
    ensures key in Run(cfg, map[], [Stats(key, now)])
    ensures key !in Run(cfg, map[], [Stats(key, now), Cleanup(false, now + 30 * 60 * 1_000_000_000 + 1)])
  {
    var ops := [Stats(key, now), Cleanup(false, now + 30 * 60 * 1_000_000_000 + 1)];
    assert ops[..1] == [Stats(key, now)] && ops[..2] == ops && ops[..0] == [];
    RunNext(cfg, map[], ops, 0);
    RunNext(cfg, map[], ops, 1);
  }

  // ----- What the calls answer, told from the run -----

  /** Calls that are turned down at the door: they answer no and do nothing. Of the others only Allow may answer no. */
  lemma TurnedDown(cfg: Config, m: Store, op: Op)
    ensures op.Allow? && (op.key == "" || op.cancelled) ==>
              OutputOf(cfg, m, op) == Verdict(false) && Step(cfg, m, op) == m
    ensures op.Reset? ==> OutputOf(cfg, m, op) == Outcome(op.key != "") && (op.key == "" ==> Step(cfg, m, op) == m)
    ensures op.Cleanup? ==> OutputOf(cfg, m, op) == Outcome(!op.cancelled) && (op.cancelled ==> Step(cfg, m, op) == m)
    ensures op.Stats? && op.key == "" ==>
              && Step(cfg, m, op) == m
              && OutputOf(cfg, m, op) == Report(TB.Stats(cfg.burst, 0, op.now + 60 * 60 * 1_000_000_000, 1_000_000_000))
  {
  }

  lemma {:induction false} OutputsNext(cfg: Config, m: Store, ops: seq<Op>, j: nat)
    requires j < |ops|
    ensures Outputs(cfg, m, ops)[j] == OutputOf(cfg, Run(cfg, m, ops[..j]), ops[j])
    decreases |ops|
  {
    if j > 0 {
      assert ops[1..][..j - 1] == ops[..j][1..];
      OutputsNext(cfg, Step(cfg, m, ops[0]), ops[1..], j - 1);
    }
  }

  /** The clock readings of the calls that ask for a token of the key, since its last Reset. */
  function AskTimes(ops: seq<Op>, key: string): seq<int>
    decreases |ops|
  {
    if ops == [] then []
    else
      var init, op := ops[..|ops| - 1], ops[|ops| - 1];
      if op.Reset? && op.key == key && key != "" then []
      else if Serves(op, key) then AskTimes(init, key) + [op.now]
      else AskTimes(init, key)
  }

  /** The answers that those calls get, picked out of the outputs of the run. */
  function AskAnswers(ops: seq<Op>, outputs: seq<Output>, key: string): (r: seq<Output>)
    requires |outputs| == |ops|
    ensures |r| == |AskTimes(ops, key)|
    decreases |ops|
  {
    if ops == [] then []
    else
      var n := |ops| - 1;
      if ops[n].Reset? && ops[n].key == key && key != "" then []
      else if Serves(ops[n], key) then AskAnswers(ops[..n], outputs[..n], key) + [outputs[n]]
      else AskAnswers(ops[..n], outputs[..n], key)
  }

  /** A bucket of the key's own: full at the start, and asked for all these tokens. */
  function OwnBucket(cfg: Config, start: int, ops: seq<Op>, key: string): TB.Bucket {
    TB.After(TB.New(cfg.rate, cfg.burst, start), AskTimes(ops, key))
  }

  lemma {:induction false} AskTimesSorted(ops: seq<Op>, key: string, start: int, last: int)
    requires ClockRuns(start, ops) && start <= last && forall i | 0 <= i < |ops| :: ops[i].now <= last
    ensures TB.Sorted([start] + AskTimes(ops, key) + [last])
  {
    if ops != [] {
      var n := |ops| - 1;
      AskTimesSorted(ops[..n], key, start, ops[n].now);
      TB.SortedMore(start, AskTimes(ops[..n], key), ops[n].now, last);
    } else {
      assert [start] + [] + [last] == [start, last];
    }
  }

  lemma OwnBucketShape(cfg: Config, start: int, ops: seq<Op>, key: string, last: int)
    requires ValidConfig(cfg) && ClockRuns(start, ops) && start <= last && forall i | 0 <= i < |ops| :: ops[i].now <= last
    ensures var v := OwnBucket(cfg, start, ops, key);
            && v.maxTokens == cfg.burst && v.refillRate == cfg.rate && v.lastRefill <= last
            && 0.0 <= v.tokens <= cfg.burst as real
  {
    AskTimesSorted(ops, key, start, last);
    var ts := AskTimes(ops, key);
    var xs := [start] + ts + [last];
    assert forall i | 0 <= i <= |ts| :: ([start] + ts)[i] == xs[i];
    TB.TokensStayInRange(cfg.rate, cfg.burst, start, ts);
    assert xs[|ts|] <= xs[|ts| + 1];
  }

  lemma RunWellFormedStep(cfg: Config, m: Store, op: Op, last: int)
    requires ValidConfig(cfg) && WellFormed(cfg, m, last) && last <= op.now
    ensures WellFormed(cfg, m, op.now) && WellFormed(cfg, Step(cfg, m, op), op.now)
  {
    WellFormedStep(cfg, m, op);
  }

  /** The store and the key's own bucket are level with each other. */
  ghost predicate Level(cfg: Config, start: int, ops: seq<Op>, key: string, now: int) {
    && WellFormed(cfg, Run(cfg, map[], ops), now)
    && LevelFor(cfg, Run(cfg, map[], ops), key, now) == TB.Level(OwnBucket(cfg, start, ops, key), now)
  }

  lemma LevelOn(cfg: Config, start: int, ops: seq<Op>, key: string, now: int, later: int)
    requires ValidConfig(cfg) && ClockRuns(start, ops) && start <= now <= later
    requires forall i | 0 <= i < |ops| :: ops[i].now <= now
    requires Level(cfg, start, ops, key, now)
    ensures Level(cfg, start, ops, key, later)
  {
    LevelForLater(cfg, Run(cfg, map[], ops), key, now, later);
    OwnBucketShape(cfg, start, ops, key, now);
    TB.LevelLater(OwnBucket(cfg, start, ops, key), now, later);
  }

  lemma LevelStep(cfg: Config, start: int, init: seq<Op>, op: Op, key: string)
    requires ValidConfig(cfg) && key != "" && ClockRuns(start, init) && start <= op.now
    requires forall i | 0 <= i < |init| :: init[i].now <= op.now
    requires Level(cfg, start, init, key, op.now)
    ensures Level(cfg, start, init + [op], key, op.now)
  {
    var m, v := Run(cfg, map[], init), OwnBucket(cfg, start, init, key);
    assert (init + [op])[..|init|] == init;
    RunNext(cfg, map[], init + [op], |init|);
    assert (init + [op])[..|init| + 1] == init + [op];
    WellFormedStep(cfg, m, op);
    LevelForStep(cfg, m, op, key);
    if op.Reset? && op.key == key {
      TB.EarnedGrows(cfg.rate, start, op.now);
    } else if Serves(op, key) {
      var ts := AskTimes(init, key);
      assert (ts + [op.now])[..|ts|] == ts;
      TB.LevelAfterAllow(v, op.now);
    }
  }

  lemma {:induction false} LevelThroughout(cfg: Config, start: int, ops: seq<Op>, key: string, now: int)
    requires ValidConfig(cfg) && key != "" && ClockRuns(start, ops) && start <= now
    requires forall i | 0 <= i < |ops| :: ops[i].now <= now
    ensures Level(cfg, start, ops, key, now)
    decreases |ops|
  {
    if ops == [] {
      TB.EarnedGrows(cfg.rate, start, now);
      assert TB.Earned(cfg.rate, now, now) == 0.0;
    } else {
      var n := |ops| - 1;
      LevelThroughout(cfg, start, ops[..n], key, ops[n].now);
      LevelStep(cfg, start, ops[..n], ops[n], key);
      assert ops[..n] + [ops[n]] == ops;
      LevelOn(cfg, start, ops, key, ops[n].now, now);
    }
  }

  function Verdicts(answers: seq<bool>): (r: seq<Output>)
    ensures |r| == |answers| && forall i | 0 <= i < |r| :: r[i] == Verdict(answers[i])
  {
    seq(|answers|, i requires 0 <= i < |answers| => Verdict(answers[i]))
  }

  lemma AnswerOfOwn(cfg: Config, start: int, init: seq<Op>, op: Op, key: string)
    requires ValidConfig(cfg) && key != "" && Serves(op, key) && ClockRuns(start, init) && start <= op.now
    requires forall i | 0 <= i < |init| :: init[i].now <= op.now
    ensures OutputOf(cfg, Run(cfg, map[], init), op) == Verdict(TB.Admits(OwnBucket(cfg, start, init, key), op.now))
  {
    LevelThroughout(cfg, start, init, key, op.now);
  }

  lemma AnswersNext(b: TB.Bucket, ts: seq<int>, now: int)
    ensures Verdicts(TB.Answers(b, ts + [now])) == Verdicts(TB.Answers(b, ts)) + [Verdict(TB.Admits(TB.After(b, ts), now))]
  {
    assert (ts + [now])[..|ts|] == ts;
  }

  lemma NextAnswer(cfg: Config, start: int, ops: seq<Op>, key: string)
    requires ValidConfig(cfg) && key != "" && ClockRuns(start, ops) && ops != [] && Serves(ops[|ops| - 1], key)
    ensures var b, n := TB.New(cfg.rate, cfg.burst, start), |ops| - 1;
            Verdicts(TB.Answers(b, AskTimes(ops, key))) ==
            Verdicts(TB.Answers(b, AskTimes(ops[..n], key))) + [Outputs(cfg, map[], ops)[n]]
  {
    var n := |ops| - 1;
    OutputsNext(cfg, map[], ops, n);
    AnswerOfOwn(cfg, start, ops[..n], ops[n], key);
    AnswersNext(TB.New(cfg.rate, cfg.burst, start), AskTimes(ops[..n], key), ops[n].now);
  }

  /** What Allow answers: to the calls for a key since its last Reset exactly what one bucket of the key's own answers,
      full at the start, whatever Stats, Cleanup and calls for other keys come in between. */
  lemma {:induction false} AllowAnswers(cfg: Config, start: int, ops: seq<Op>, key: string)
    requires ValidConfig(cfg) && key != "" && ClockRuns(start, ops)
    ensures AskAnswers(ops, Outputs(cfg, map[], ops), key) ==
            Verdicts(TB.Answers(TB.New(cfg.rate, cfg.burst, start), AskTimes(ops, key)))
    decreases |ops|
  {
    if ops != [] {
      var n := |ops| - 1;
      AllowAnswers(cfg, start, ops[..n], key);
      OutputsPrefix(cfg, map[], ops, n);
      if Serves(ops[n], key) { NextAnswer(cfg, start, ops, key); }
    }
  }

  lemma OutputsPrefix(cfg: Config, m: Store, ops: seq<Op>, n: nat)
    requires n <= |ops|
    ensures Outputs(cfg, m, ops)[..n] == Outputs(cfg, m, ops[..n])
  {
    forall j | 0 <= j < n ensures Outputs(cfg, m, ops)[j] == Outputs(cfg, m, ops[..n])[j] {
      OutputsNext(cfg, m, ops, j);
      OutputsNext(cfg, m, ops[..n], j);
      assert ops[..n][..j] == ops[..j];
    }
  }

  function Granted(outputs: seq<Output>): seq<bool> {
    seq(|outputs|, i requires 0 <= i < |outputs| => outputs[i] == Verdict(true))
  }

  /** So every key keeps the rate limit between its resets, and nothing is refused to it if and only if its calls are
      within the limit. */
  lemma KeyKeepsLimit(cfg: Config, start: int, ops: seq<Op>, key: string)
    requires ValidConfig(cfg) && key != "" && ClockRuns(start, ops)
    ensures var times, granted := AskTimes(ops, key), Granted(AskAnswers(ops, Outputs(cfg, map[], ops), key));
            && TB.Conforms(cfg.rate, cfg.burst, times, granted)
            && ((forall i | 0 <= i < |granted| :: granted[i]) <==> TB.WithinLimit(cfg.rate, cfg.burst, times))
  {
    AllowAnswers(cfg, start, ops, key);
    var times, answers := AskTimes(ops, key), TB.Answers(TB.New(cfg.rate, cfg.burst, start), AskTimes(ops, key));
    assert Granted(Verdicts(answers)) == answers;
    var last := if ops == [] then start else ops[|ops| - 1].now;
    AskTimesSorted(ops, key, start, last);
    assert forall i | 0 <= i <= |times| :: ([start] + times)[i] == ([start] + times + [last])[i];
    TB.AllowConforms(cfg.rate, cfg.burst, start, times);
    TB.ExactConformance(cfg.rate, cfg.burst, start, times);
  }

  function Asking(key: string, now: int, n: nat): (ops: seq<Op>)
    ensures |ops| == n && forall i | 0 <= i < n :: ops[i] == Allow(key, false, now)
  {
    seq(n, _ => Allow(key, false, now))
  }

  lemma {:induction false} AskedBucket(cfg: Config, m: Store, key: string, now: int, n: nat)
    requires key != ""
    ensures var b := BucketFor(cfg, m, key, now);
            BucketFor(cfg, Run(cfg, m, Asking(key, now, n)), key, now) == TB.After(b, TB.Calls(now, n))
  {
    if n > 0 {
      AskedBucket(cfg, m, key, now, n - 1);
      assert Asking(key, now, n)[..n - 1] == Asking(key, now, n - 1) && Asking(key, now, n)[..n] == Asking(key, now, n);
      RunNext(cfg, m, Asking(key, now, n), n - 1);
      assert TB.Calls(now, n)[..n - 1] == TB.Calls(now, n - 1);
    }
  }

  /** What Stats reports of a key is what Allow then does: of any number of calls for it at that instant exactly the
      first Remaining are granted. Looking does not change that. */
  lemma ReportIsExact(cfg: Config, m: Store, key: string, now: int, n: nat)
    requires ValidConfig(cfg) && WellFormed(cfg, m, now) && key != ""
    ensures OutputOf(cfg, m, Stats(key, now)).Report?
    ensures var stats, after := OutputOf(cfg, m, Stats(key, now)).stats, Step(cfg, m, Stats(key, now));
            && (forall i | 0 <= i < n :: Outputs(cfg, after, Asking(key, now, n))[i] == Verdict(i < stats.remaining))
            && stats.requests + stats.remaining == cfg.burst
  {
    var after, b := Step(cfg, m, Stats(key, now)), BucketFor(cfg, m, key, now);
    LevelRange(cfg, m, key, now);
    TB.RemainingIsExact(b, now, n);
    forall i | 0 <= i < n
      ensures Outputs(cfg, after, Asking(key, now, n))[i] == Verdict(i < TB.StatsOf(b, now).remaining)
    {
      OutputsNext(cfg, after, Asking(key, now, n), i);
      assert Asking(key, now, n)[..i] == Asking(key, now, i);
      AskedBucket(cfg, after, key, now, i);
      TB.AnswersPrefix(b, TB.Calls(now, n), i);
      assert TB.Calls(now, n)[..i] == TB.Calls(now, i);
    }
  }
}
