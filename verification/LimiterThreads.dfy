/** Any number of threads calling Allow on one rate limiter, while keys are reset and swept: looking a limiter
    up, creating it under the write lock, and taking a token from it are steps of their own. */
module LimiterThreads {
  import TB = TokenBucket
  import opened KeyedLimiter

  datatype Pc =
    | Resting
    | Lookup(key: string)            // before the read lock
    | Missed(key: string)            // saw no limiter; before the write lock
    | Holding(key: string, id: nat)  // has a limiter, which may have been dropped since

  /** A request answered by limiter `id`. */
  datatype Served = Served(key: string, id: nat, now: int, allowed: bool)

  datatype System = System(
    clock: int, limiters: map<string, nat>, threads: map<nat, Pc>, log: seq<Served>,
    heap: seq<TB.Bucket>, made: seq<(string, int)>)   // per limiter: its bucket; the key and instant it was made for

  const START := System(0, map[], map[], [], [], [])

  /** Drop is a Reset of the key, or Cleanup coming across its idle limiter. */
  datatype Label = Tick(now: int) | Call(thread: nat, key: string) | Move(thread: nat) | Drop(key: string, reset: bool)

  function PcOf(s: System, t: nat): Pc {
    if t in s.threads then s.threads[t] else Resting
  }

  predicate Enabled(s: System, l: Label) {
    match l
    case Tick(now) => now >= s.clock
    case Call(t, key) => PcOf(s, t) == Resting && key != ""
    case Move(t) => PcOf(s, t) != Resting
    case Drop(key, reset) =>
      reset || (key in s.limiters && s.limiters[key] < |s.heap| && TB.Idle(s.heap[s.limiters[key]], s.clock))
  }

  function Goto(s: System, t: nat, pc: Pc): System {
    s.(threads := s.threads[t := pc])
  }

  function MoveThread(cfg: Config, s: System, t: nat): System {
    match PcOf(s, t)
    case Resting => s
    case Lookup(key) =>
      if key in s.limiters then Goto(s, t, Holding(key, s.limiters[key])) else Goto(s, t, Missed(key))
    case Missed(key) =>
      if key in s.limiters then Goto(s, t, Holding(key, s.limiters[key]))
      else Goto(s, t, Holding(key, |s.heap|)).(
        limiters := s.limiters[key := |s.heap|],
        heap := s.heap + [TB.New(cfg.rate, cfg.burst, s.clock)], made := s.made + [(key, s.clock)])
    case Holding(key, id) =>
      if id >= |s.heap| then s
      else Goto(s, t, Resting).(
        heap := s.heap[id := TB.Allow(s.heap[id], s.clock)],
        log := s.log + [Served(key, id, s.clock, TB.Admits(s.heap[id], s.clock))])
  }

  function Apply(cfg: Config, s: System, l: Label): System {
    match l
    case Tick(now) => s.(clock := now)
    case Call(t, key) => Goto(s, t, Lookup(key))
    case Move(t) => MoveThread(cfg, s, t)
    case Drop(key, _) => s.(limiters := s.limiters - {key})
  }

  function After(cfg: Config, ls: seq<Label>): System
    decreases |ls|
  {
    if ls == [] then START else Apply(cfg, After(cfg, ls[..|ls| - 1]), ls[|ls| - 1])
  }

  ghost predicate Possible(cfg: Config, ls: seq<Label>) {
    forall i | 0 <= i < |ls| :: Enabled(After(cfg, ls[..i]), ls[i])
  }

  lemma PossiblePrefix(cfg: Config, ls: seq<Label>, i: nat)
    requires Possible(cfg, ls) && i <= |ls|
    ensures Possible(cfg, ls[..i])
  {
    forall k | 0 <= k < i ensures Enabled(After(cfg, ls[..i][..k]), ls[..i][k]) {
      assert ls[..i][..k] == ls[..k];
    }
  }

  // ----- The requests one limiter answered -----

  function Times(log: seq<Served>, id: nat): seq<int> {
    if log == [] then []
    else Times(log[..|log| - 1], id) + if log[|log| - 1].id == id then [log[|log| - 1].now] else []
  }

  function Verdicts(log: seq<Served>, id: nat): (r: seq<bool>)
    ensures |r| == |Times(log, id)|
  {
    if log == [] then []
    else Verdicts(log[..|log| - 1], id) + if log[|log| - 1].id == id then [log[|log| - 1].allowed] else []
  }

  /** Each limiter is a sequential token bucket, whatever the threads do. */
  ghost predicate RunsAlone(cfg: Config, s: System, id: nat)
    requires id < |s.heap| == |s.made|
  {
    var b, ts := TB.New(cfg.rate, cfg.burst, s.made[id].1), Times(s.log, id);
    && s.heap[id] == TB.After(b, ts) && Verdicts(s.log, id) == TB.Answers(b, ts)
    && TB.Sorted([s.made[id].1] + ts + [s.clock])
  }

  predicate MadeFor(s: System, id: nat, key: string) {
    id < |s.made| && s.made[id].0 == key
  }

  ghost predicate Sound(cfg: Config, s: System) {
    && |s.heap| == |s.made|
    && (forall key | key in s.limiters :: MadeFor(s, s.limiters[key], key))
    && (forall t | t in s.threads && s.threads[t].Holding? :: MadeFor(s, s.threads[t].id, s.threads[t].key))
    && (forall e | e in s.log :: MadeFor(s, e.id, e.key))
    && (forall id | 0 <= id < |s.heap| :: RunsAlone(cfg, s, id))
  }

  lemma {:induction false} NoTimesYet(log: seq<Served>, id: nat)
    requires forall e | e in log :: e.id != id
    ensures Times(log, id) == []
  {
    if log != [] { NoTimesYet(log[..|log| - 1], id); }
  }

  lemma Logged(log: seq<Served>, e: Served, id: nat)
    ensures Times(log + [e], id) == if e.id == id then Times(log, id) + [e.now] else Times(log, id)
    ensures Verdicts(log + [e], id) == if e.id == id then Verdicts(log, id) + [e.allowed] else Verdicts(log, id)
  {
    assert (log + [e])[..|log|] == log;
  }

  lemma ServedAlone(cfg: Config, s: System, id: nat, e: Served)
    requires id < |s.heap| == |s.made| && RunsAlone(cfg, s, id)
    requires e.id == id && e.now == s.clock && e.allowed == TB.Admits(s.heap[id], s.clock)
    ensures RunsAlone(cfg, s.(heap := s.heap[id := TB.Allow(s.heap[id], s.clock)], log := s.log + [e]), id)
  {
    var ts := Times(s.log, id);
    Logged(s.log, e, id);
    assert (ts + [e.now])[..|ts|] == ts;
    TB.SortedMore(s.made[id].1, ts, s.clock, s.clock);
  }

  lemma StepRunsAlone(cfg: Config, s: System, l: Label, id: nat)
    requires Sound(cfg, s) && Enabled(s, l) && id < |Apply(cfg, s, l).heap| == |Apply(cfg, s, l).made|
    ensures RunsAlone(cfg, Apply(cfg, s, l), id)
  {
    if id < |s.heap| { assert RunsAlone(cfg, s, id); }
    match l
    case Tick(now) => TB.SortedMore(s.made[id].1, Times(s.log, id), s.clock, now);
    case Call(t, key) =>
    case Drop(key, _) =>
    case Move(t) =>
      match PcOf(s, t) {
        case Missed(key) => if id == |s.heap| { NoTimesYet(s.log, id); }
        case Holding(key, i) =>
          assert MadeFor(s, i, key);
          var e := Served(key, i, s.clock, TB.Admits(s.heap[i], s.clock));
          Logged(s.log, e, id);
          if i == id { ServedAlone(cfg, s, id, e); }
        case _ =>
      }
  }

  lemma SoundKept(cfg: Config, s: System, l: Label)
    requires Sound(cfg, s) && Enabled(s, l)
    ensures Sound(cfg, Apply(cfg, s, l))
  {
    var s' := Apply(cfg, s, l);
    if l.Move? && PcOf(s, l.thread).Holding? { assert MadeFor(s, PcOf(s, l.thread).id, PcOf(s, l.thread).key); }
    forall id | 0 <= id < |s'.heap| ensures RunsAlone(cfg, s', id) { StepRunsAlone(cfg, s, l, id); }
  }

  lemma {:induction false} AlwaysSound(cfg: Config, ls: seq<Label>)
    requires Possible(cfg, ls)
    ensures Sound(cfg, After(cfg, ls))
  {
    if ls != [] {
      var n := |ls| - 1;
      PossiblePrefix(cfg, ls, n);
      AlwaysSound(cfg, ls[..n]);
      SoundKept(cfg, After(cfg, ls[..n]), ls[n]);
    }
  }

  /** In every interleaving every limiter keeps the rate limit over all the requests it answers. */
  lemma EachLimiterConforms(cfg: Config, ls: seq<Label>, id: nat)
    requires ValidConfig(cfg) && Possible(cfg, ls) && id < |After(cfg, ls).heap|
    ensures var log := After(cfg, ls).log;
            TB.Conforms(cfg.rate, cfg.burst, Times(log, id), Verdicts(log, id))
  {
    AlwaysSound(cfg, ls);
    var s := After(cfg, ls);
    assert RunsAlone(cfg, s, id);
    var xs := [s.made[id].1] + Times(s.log, id);
    assert forall i | 0 <= i < |xs| :: xs[i] == (xs + [s.clock])[i];
    TB.AllowConforms(cfg.rate, cfg.burst, s.made[id].1, Times(s.log, id));
  }

  // ----- One limiter per key, unless the key is dropped -----

  predicate Drops(l: Label, key: string) { l.Drop? && l.key == key }

  predicate Undropped(ls: seq<Label>, i: nat, key: string) {
    forall k | i <= k < |ls| :: !Drops(ls[k], key)
  }

  predicate Bound(s: System, key: string, id: nat) {
    key in s.limiters && s.limiters[key] == id
  }

  /** Limiters of the key that have been dropped and that some thread is still about to ask. */
  function Leftovers(s: System, key: string): set<nat> {
    set t | t in s.threads && s.threads[t].Holding? && s.threads[t].key == key && !Bound(s, key, s.threads[t].id)
      :: s.threads[t].id
  }

  lemma StepGrows(cfg: Config, s: System, l: Label)
    ensures var s' := Apply(cfg, s, l); s.made <= s'.made && s.log <= s'.log && |s'.made| <= |s.made| + 1
  {
  }

  lemma {:induction false} RunGrows(cfg: Config, ls: seq<Label>, i: nat)
    requires i <= |ls|
    ensures After(cfg, ls[..i]).made <= After(cfg, ls).made && After(cfg, ls[..i]).log <= After(cfg, ls).log
  {
    if i == |ls| {
      assert ls[..i] == ls;
    } else {
      var n := |ls| - 1;
      assert ls[..n][..i] == ls[..i];
      RunGrows(cfg, ls[..n], i);
      StepGrows(cfg, After(cfg, ls[..n]), ls[n]);
    }
  }

  predicate NoneMade(s: System, from: nat, key: string) {
    forall n | from <= n < |s.made| :: s.made[n].0 != key
  }

  lemma BindingStep(cfg: Config, s: System, l: Label, key: string, id: nat, from: nat)
    requires Bound(s, key, id) && NoneMade(s, from, key) && !Drops(l, key)
    ensures Bound(Apply(cfg, s, l), key, id) && NoneMade(Apply(cfg, s, l), from, key)
  {
  }

  /** Double-checked creation: a key with a limiter keeps it, and gets no second one, until it is dropped. */
  lemma {:induction false} BindingKept(cfg: Config, ls: seq<Label>, i: nat, key: string, id: nat)
    requires i <= |ls| && Bound(After(cfg, ls[..i]), key, id) && Undropped(ls, i, key)
    ensures Bound(After(cfg, ls), key, id) && NoneMade(After(cfg, ls), |After(cfg, ls[..i]).made|, key)
  {
    if i == |ls| {
      assert ls[..i] == ls;
    } else {
      var n := |ls| - 1;
      assert ls[..n][..i] == ls[..i] && !Drops(ls[n], key);
      BindingKept(cfg, ls[..n], i, key, id);
      BindingStep(cfg, After(cfg, ls[..n]), ls[n], key, id, |After(cfg, ls[..i]).made|);
    }
  }

  lemma Making(cfg: Config, s: System, l: Label, id: nat)
    requires Sound(cfg, s) && |s.made| <= id < |Apply(cfg, s, l).made|
    ensures |s.made| == id && |Apply(cfg, s, l).made| == id + 1
    ensures Apply(cfg, s, l).made[id].0 !in s.limiters && Bound(Apply(cfg, s, l), Apply(cfg, s, l).made[id].0, id)
  {
  }

  /** The step that made a limiter. */
  ghost predicate MadeBy(cfg: Config, ls: seq<Label>, id: nat, i: nat, key: string) {
    && i < |ls| && |After(cfg, ls[..i]).made| == id && |After(cfg, ls[..i + 1]).made| == id + 1
    && key !in After(cfg, ls[..i]).limiters && Bound(After(cfg, ls[..i + 1]), key, id)
  }

  lemma {:induction false} MakingOf(cfg: Config, ls: seq<Label>, id: nat) returns (i: nat)
    requires Possible(cfg, ls) && id < |After(cfg, ls).made|
    ensures MadeBy(cfg, ls, id, i, After(cfg, ls).made[id].0)
  {
    var n := |ls| - 1;
    var s := After(cfg, ls[..n]);
    PossiblePrefix(cfg, ls, n);
    if id < |s.made| {
      i := MakingOf(cfg, ls[..n], id);
      assert ls[..n][..i] == ls[..i] && ls[..n][..i + 1] == ls[..i + 1];
      StepGrows(cfg, s, ls[n]);
    } else {
      i := n;
      AlwaysSound(cfg, ls[..n]);
      Making(cfg, s, ls[n], id);
      assert ls[..n + 1] == ls;
    }
  }

  lemma MadeLater(cfg: Config, ls: seq<Label>, i: nat, j: nat)
    requires i <= j <= |ls|
    ensures |After(cfg, ls[..i]).made| <= |After(cfg, ls[..j]).made|
  {
    assert ls[..j][..i] == ls[..i];
    RunGrows(cfg, ls[..j], i);
  }

  lemma DropBetween(cfg: Config, ls: seq<Label>, i: nat, j: nat, key: string, id: nat) returns (k: nat)
    requires i <= j <= |ls| && Bound(After(cfg, ls[..i]), key, id) && key !in After(cfg, ls[..j]).limiters
    ensures i <= k < j && Drops(ls[k], key)
  {
    assert ls[..j][..i] == ls[..i];
    if Undropped(ls[..j], i, key) { BindingKept(cfg, ls[..j], i, key, id); }
    k :| i <= k < j && Drops(ls[..j][k], key);
  }

  /** No key gets two limiters unless it is dropped in between: after the first was made, before the second. */
  lemma TwoLimitersNeedDrop(cfg: Config, ls: seq<Label>, a: nat, b: nat)
    requires Possible(cfg, ls) && a < b < |After(cfg, ls).made| && After(cfg, ls).made[a].0 == After(cfg, ls).made[b].0
    ensures exists k :: 0 <= k < |ls| && Drops(ls[k], After(cfg, ls).made[a].0)
                        && a < |After(cfg, ls[..k]).made| <= b
  {
    var key := After(cfg, ls).made[a].0;
    var i := MakingOf(cfg, ls, a);
    var j := MakingOf(cfg, ls, b);
    if j <= i { MadeLater(cfg, ls, j, i); }
    var k := DropBetween(cfg, ls, i + 1, j, key, a);
    MadeLater(cfg, ls, i + 1, k);
    MadeLater(cfg, ls, k, j);
  }

  /** Whoever asks a limiter of the key asks the one it has now, or one left over from before. */
  predicate Asked(s: System, from: nat, key: string, left: set<nat>) {
    && Leftovers(s, key) <= left
    && forall k | from <= k < |s.log| && s.log[k].key == key :: Bound(s, key, s.log[k].id) || s.log[k].id in left
  }

  lemma AskedStep(cfg: Config, s: System, l: Label, from: nat, key: string, left: set<nat>)
    requires !Drops(l, key) && Asked(s, from, key, left)
    ensures Asked(Apply(cfg, s, l), from, key, left)
  {
    var s' := Apply(cfg, s, l);
    forall t | t in s'.threads && s'.threads[t].Holding? && s'.threads[t].key == key
               && !Bound(s', key, s'.threads[t].id)
      ensures s'.threads[t].id in Leftovers(s, key)
    {
    }
    if l.Move? && PcOf(s, l.thread).Holding? && PcOf(s, l.thread).key == key && !Bound(s, key, PcOf(s, l.thread).id) {
      assert PcOf(s, l.thread).id in Leftovers(s, key);
    }
  }

  lemma {:induction false} AskedSince(cfg: Config, ls: seq<Label>, i: nat, key: string, from: nat, left: set<nat>)
    requires i <= |ls| && Undropped(ls, i, key) && Asked(After(cfg, ls[..i]), from, key, left)
    ensures Asked(After(cfg, ls), from, key, left)
  {
    if i == |ls| {
      assert ls[..i] == ls;
    } else {
      var n := |ls| - 1;
      assert ls[..n][..i] == ls[..i] && !Drops(ls[n], key);
      AskedSince(cfg, ls[..n], i, key, from, left);
      AskedStep(cfg, After(cfg, ls[..n]), ls[n], from, key, left);
    }
  }

  lemma {:induction false} TimesConcat(a: seq<Served>, b: seq<Served>, id: nat)
    ensures Times(a + b, id) == Times(a, id) + Times(b, id)
    ensures Verdicts(a + b, id) == Verdicts(a, id) + Verdicts(b, id)
  {
    if b == [] {
      assert a + b == a;
    } else {
      assert (a + b)[..|a + b| - 1] == a + b[..|b| - 1];
      TimesConcat(a, b[..|b| - 1], id);
    }
  }

  lemma ConformsSince(rate: TB.Rate, burst: int, ts: seq<int>, picks: seq<bool>, us: seq<int>, more: seq<bool>)
    requires |picks| == |ts| && |more| == |us| && TB.Conforms(rate, burst, ts + us, picks + more)
    ensures TB.Conforms(rate, burst, us, more)
  {
    forall i, j | 0 <= i <= j < |us|
      ensures TB.Count(more[i..j + 1]) as real <= burst as real + TB.Earned(rate, us[i], us[j])
    {
      var n := |ts|;
      assert more[i..j + 1] == (picks + more)[n + i..n + j + 1];
      assert us[i] == (ts + us)[n + i] && us[j] == (ts + us)[n + j];
    }
  }

  /** From any instant on, until the key is dropped (again): the key has one limiter, which answers only its
      requests and keeps the rate limit over them, and which answers all of its requests except those of threads
      that were left with a dropped limiter at that instant. */
  lemma OneLimiterPerKey(cfg: Config, ls: seq<Label>, i: nat, key: string)
    requires ValidConfig(cfg) && Possible(cfg, ls) && i <= |ls| && Undropped(ls, i, key)
    requires key in After(cfg, ls).limiters
    ensures |After(cfg, ls[..i]).log| <= |After(cfg, ls).log|
    ensures var since, id := After(cfg, ls).log[|After(cfg, ls[..i]).log|..], After(cfg, ls).limiters[key];
            && (key in After(cfg, ls[..i]).limiters ==> id == After(cfg, ls[..i]).limiters[key])
            && (forall e | e in since && e.id == id :: e.key == key)
            && (forall e | e in since && e.key == key :: e.id == id || e.id in Leftovers(After(cfg, ls[..i]), key))
            && TB.Conforms(cfg.rate, cfg.burst, Times(since, id), Verdicts(since, id))
  {
    var s, id := After(cfg, ls), After(cfg, ls).limiters[key];
    var log, left := After(cfg, ls[..i]).log, Leftovers(After(cfg, ls[..i]), key);
    RunGrows(cfg, ls, i);
    var since := s.log[|log|..];
    AlwaysSound(cfg, ls);
    AskedSince(cfg, ls, i, key, |log|, left);
    if key in After(cfg, ls[..i]).limiters { BindingKept(cfg, ls, i, key, After(cfg, ls[..i]).limiters[key]); }
    AnswersSince(cfg, s, log, since, key, id, left);
    LimiterConformsSince(cfg, ls, log, since, id);
  }

  lemma AnswersSince(cfg: Config, s: System, log: seq<Served>, since: seq<Served>, key: string, id: nat, left: set<nat>)
    requires Sound(cfg, s) && s.log == log + since && Bound(s, key, id) && Asked(s, |log|, key, left)
    ensures forall e | e in since && e.id == id :: e.key == key
    ensures forall e | e in since && e.key == key :: e.id == id || e.id in left
  {
    forall e | e in since ensures (e.id == id ==> e.key == key) && (e.key == key ==> e.id == id || e.id in left) {
      assert e in s.log && MadeFor(s, e.id, e.key) && MadeFor(s, id, key);
      assert forall k | 0 <= k < |since| :: since[k] == s.log[|log| + k];
    }
  }

  lemma LimiterConformsSince(cfg: Config, ls: seq<Label>, log: seq<Served>, since: seq<Served>, id: nat)
    requires ValidConfig(cfg) && Possible(cfg, ls) && id < |After(cfg, ls).heap| && After(cfg, ls).log == log + since
    ensures TB.Conforms(cfg.rate, cfg.burst, Times(since, id), Verdicts(since, id))
  {
    EachLimiterConforms(cfg, ls, id);
    TimesConcat(log, since, id);
    ConformsSince(cfg.rate, cfg.burst, Times(log, id), Verdicts(log, id), Times(since, id), Verdicts(since, id));
  }

  // ----- What the key as a whole is granted when sweeps, but no resets, drop it -----

  predicate Asks(s: System, t: nat, key: string) {
    PcOf(s, t).Holding? && PcOf(s, t).key == key
  }

  /** Threads that hold a limiter of the key that is no longer its own. */
  function Stragglers(s: System, key: string): set<nat> {
    set t | t in s.threads && Asks(s, t, key) && !Bound(s, key, s.threads[t].id)
  }

  /** Threads that hold the limiter of the key. */
  function Holders(s: System, key: string): set<nat> {
    set t | t in s.threads && Asks(s, t, key) && Bound(s, key, s.threads[t].id)
  }

  /** Requests answered by a limiter that the key no longer had. */
  function Stale(cfg: Config, ls: seq<Label>, key: string): nat
    decreases |ls|
  {
    if ls == [] then 0
    else
      var init, l := ls[..|ls| - 1], ls[|ls| - 1];
      Stale(cfg, init, key) + if l.Move? && l.thread in Stragglers(After(cfg, init), key) then 1 else 0
  }

  /** How many threads the drops of the key have left behind. */
  function LeftBehind(cfg: Config, ls: seq<Label>, key: string): nat
    decreases |ls|
  {
    if ls == [] then 0
    else
      var init, l := ls[..|ls| - 1], ls[|ls| - 1];
      LeftBehind(cfg, init, key) + if Drops(l, key) then |Holders(After(cfg, init), key)| else 0
  }

  lemma StragglersStep(cfg: Config, s: System, l: Label, key: string)
    requires Sound(cfg, s) && Enabled(s, l)
    ensures Stragglers(Apply(cfg, s, l), key) ==
            if Drops(l, key) then Stragglers(s, key) + Holders(s, key)
            else if l.Move? then Stragglers(s, key) - {l.thread}
            else Stragglers(s, key)
  {
    if l.Move? && PcOf(s, l.thread).Holding? { assert MadeFor(s, PcOf(s, l.thread).id, PcOf(s, l.thread).key); }
    forall t | t in Stragglers(s, key) ensures MadeFor(s, s.threads[t].id, key) {}
  }

  /** Every thread left behind answers one request late, or still has it before it. */
  lemma {:induction false} StaleAccount(cfg: Config, ls: seq<Label>, key: string)
    requires Possible(cfg, ls)
    ensures Stale(cfg, ls, key) + |Stragglers(After(cfg, ls), key)| == LeftBehind(cfg, ls, key)
  {
    if ls != [] {
      var n := |ls| - 1;
      var s := After(cfg, ls[..n]);
      PossiblePrefix(cfg, ls, n);
      StaleAccount(cfg, ls[..n], key);
      AlwaysSound(cfg, ls[..n]);
      StragglersStep(cfg, s, ls[n], key);
      if Drops(ls[n], key) { assert Stragglers(s, key) !! Holders(s, key); }
    }
  }

  function Admissions(log: seq<Served>, key: string): nat {
    if log == [] then 0
    else Admissions(log[..|log| - 1], key) + if log[|log| - 1].key == key && log[|log| - 1].allowed then 1 else 0
  }

  /** The tokens that the key's own limiter has; without one, the key would get a full one. */
  function KeyLevel(cfg: Config, s: System, key: string): real {
    if key in s.limiters && s.limiters[key] < |s.heap| then TB.Level(s.heap[s.limiters[key]], s.clock)
    else cfg.burst as real
  }

  lemma LimiterShape(cfg: Config, s: System, id: nat)
    requires ValidConfig(cfg) && Sound(cfg, s) && id < |s.heap|
    ensures s.heap[id].maxTokens == cfg.burst && s.heap[id].refillRate == cfg.rate && s.heap[id].lastRefill <= s.clock
    ensures s.heap[id].tokens >= 0.0
  {
    assert RunsAlone(cfg, s, id);
    var start, ts := s.made[id].1, Times(s.log, id);
    var xs := [start] + ts + [s.clock];
    assert forall i | 0 <= i <= |ts| :: ([start] + ts)[i] == xs[i];
    TB.TokensStayInRange(cfg.rate, cfg.burst, start, ts);
    assert xs[|ts|] <= xs[|ts| + 1];
  }

  lemma KeyLevelInRange(cfg: Config, s: System, key: string)
    requires ValidConfig(cfg) && Sound(cfg, s)
    ensures 0.0 <= KeyLevel(cfg, s, key) <= cfg.burst as real
  {
    if key in s.limiters {
      assert MadeFor(s, s.limiters[key], key);
      LimiterShape(cfg, s, s.limiters[key]);
      TB.EarnedGrows(cfg.rate, s.heap[s.limiters[key]].lastRefill, s.clock);
    }
  }

  lemma KeyLevelLater(cfg: Config, s: System, key: string, now: int)
    requires ValidConfig(cfg) && Sound(cfg, s) && now >= s.clock
    ensures KeyLevel(cfg, s.(clock := now), key) ==
            TB.Min(KeyLevel(cfg, s, key) + TB.Earned(cfg.rate, s.clock, now), cfg.burst as real)
  {
    TB.EarnedGrows(cfg.rate, s.clock, now);
    if key in s.limiters {
      assert MadeFor(s, s.limiters[key], key);
      LimiterShape(cfg, s, s.limiters[key]);
      TB.LevelLater(s.heap[s.limiters[key]], s.clock, now);
    }
  }

  predicate Resets(l: Label, key: string) { l.Drop? && l.key == key && l.reset }

  /** A step pays for an admission out of the key's tokens, unless a straggler is served; a sweep takes nothing. */
  lemma KeyLevelStep(cfg: Config, s: System, l: Label, key: string)
    requires ValidConfig(cfg) && Sound(cfg, s) && Enabled(s, l) && !l.Tick? && !Resets(l, key)
    ensures var s' := Apply(cfg, s, l);
            && s'.clock == s.clock
            && KeyLevel(cfg, s', key) + Admissions(s'.log, key) as real
               <= KeyLevel(cfg, s, key) + Admissions(s.log, key) as real
                  + if l.Move? && l.thread in Stragglers(s, key) then 1.0 else 0.0
  {
    if key in s.limiters {
      assert MadeFor(s, s.limiters[key], key);
      LimiterShape(cfg, s, s.limiters[key]);
    }
    match l
    case Call(t, k) =>
    case Drop(k, _) => if k == key { TB.IdleIsReplaceable(s.heap[s.limiters[key]], s.clock); }
    case Move(t) => MoveKeyLevel(cfg, s, t, key);
  }

  lemma MoveKeyLevel(cfg: Config, s: System, t: nat, key: string)
    requires ValidConfig(cfg) && Sound(cfg, s) && Enabled(s, Move(t))
    ensures var s' := Apply(cfg, s, Move(t));
            KeyLevel(cfg, s', key) + Admissions(s'.log, key) as real
            <= KeyLevel(cfg, s, key) + Admissions(s.log, key) as real + if t in Stragglers(s, key) then 1.0 else 0.0
  {
    match PcOf(s, t)
    case Missed(k) => assert TB.Earned(cfg.rate, s.clock, s.clock) == 0.0;
    case Holding(k, id) =>
      assert MadeFor(s, id, k);
      var e := Served(k, id, s.clock, TB.Admits(s.heap[id], s.clock));
      assert (s.log + [e])[..|s.log|] == s.log;
      TB.LevelAfterAllow(s.heap[id], s.clock);
    case _ =>
  }

  predicate Unreset(ls: seq<Label>, i: nat, key: string) {
    forall k | i <= k < |ls| :: !Resets(ls[k], key)
  }

  /** What has been admitted for the key, with what it could still be given at once. */
  function Committed(cfg: Config, s: System, key: string): real {
    Admissions(s.log, key) as real + KeyLevel(cfg, s, key)
  }

  lemma CommittedStep(cfg: Config, s: System, l: Label, key: string)
    requires ValidConfig(cfg) && Sound(cfg, s) && Enabled(s, l) && !Resets(l, key)
    ensures Apply(cfg, s, l).clock >= s.clock
    ensures Committed(cfg, Apply(cfg, s, l), key) <=
            Committed(cfg, s, key) + TB.Earned(cfg.rate, s.clock, Apply(cfg, s, l).clock)
            + if l.Move? && l.thread in Stragglers(s, key) then 1.0 else 0.0
  {
    if l.Tick? {
      KeyLevelLater(cfg, s, key, l.now);
    } else {
      KeyLevelStep(cfg, s, l, key);
      assert TB.Earned(cfg.rate, s.clock, s.clock) == 0.0;
    }
  }

  /** Between two systems: the growth is earned, or due to stale answers. */
  predicate Covered(cfg: Config, start: System, s: System, key: string, earned: real, stale: int) {
    Committed(cfg, s, key) <= Committed(cfg, start, key) + earned + stale as real
  }

  lemma CoveredNext(cfg: Config, start: System, s: System, l: Label, key: string, earned: real, stale: int)
    requires ValidConfig(cfg) && Sound(cfg, s) && Enabled(s, l) && !Resets(l, key)
    requires Covered(cfg, start, s, key, earned, stale)
    ensures Covered(cfg, start, Apply(cfg, s, l), key, earned + TB.Earned(cfg.rate, s.clock, Apply(cfg, s, l).clock),
                    stale + if l.Move? && l.thread in Stragglers(s, key) then 1 else 0)
  {
    CommittedStep(cfg, s, l, key);
  }

  /** What has been earned along the way. */
  function EarnedSince(cfg: Config, ls: seq<Label>, i: nat): real
    requires i <= |ls|
    decreases |ls|
  {
    if i == |ls| then 0.0
    else
      var init := ls[..|ls| - 1];
      EarnedSince(cfg, init, i) + TB.Earned(cfg.rate, After(cfg, init).clock, After(cfg, ls).clock)
  }

  lemma {:induction false} EarnedInAll(cfg: Config, ls: seq<Label>, i: nat)
    requires i <= |ls|
    ensures EarnedSince(cfg, ls, i) == TB.Earned(cfg.rate, After(cfg, ls[..i]).clock, After(cfg, ls).clock)
  {
    if i == |ls| {
      assert ls[..i] == ls;
      assert TB.Earned(cfg.rate, After(cfg, ls).clock, After(cfg, ls).clock) == 0.0;
    } else {
      var init := ls[..|ls| - 1];
      assert init[..i] == ls[..i];
      EarnedInAll(cfg, init, i);
      TB.EarnedAdds(cfg.rate, After(cfg, ls[..i]).clock, After(cfg, init).clock, After(cfg, ls).clock);
    }
  }

  lemma {:induction false} CommittedSince(cfg: Config, ls: seq<Label>, i: nat, key: string)
    requires ValidConfig(cfg) && Possible(cfg, ls) && i <= |ls| && Unreset(ls, i, key)
    ensures Covered(cfg, After(cfg, ls[..i]), After(cfg, ls), key, EarnedSince(cfg, ls, i),
                    Stale(cfg, ls, key) - Stale(cfg, ls[..i], key))
  {
    if i == |ls| {
      assert ls[..i] == ls;
    } else {
      var n := |ls| - 1;
      var s := After(cfg, ls[..n]);
      PossiblePrefix(cfg, ls, n);
      assert ls[..n][..i] == ls[..i] && !Resets(ls[n], key);
      CommittedSince(cfg, ls[..n], i, key);
      AlwaysSound(cfg, ls[..n]);
      var stale := Stale(cfg, ls[..n], key) - Stale(cfg, ls[..i], key);
      var more := if ls[n].Move? && ls[n].thread in Stragglers(s, key) then 1 else 0;
      assert Stale(cfg, ls, key) - Stale(cfg, ls[..i], key) == stale + more;
      CoveredNext(cfg, After(cfg, ls[..i]), s, ls[n], key, EarnedSince(cfg, ls[..n], i), stale);
    }
  }

  /** The limit of a key whose limiters come and go by sweeps alone: between two instants it is granted no more than
      burst + rate * length, and one request more for every thread that was left with a dropped limiter at the first
      instant or is left with one in between. */
  lemma KeyLimitUnderSweeps(cfg: Config, ls: seq<Label>, i: nat, key: string)
    requires ValidConfig(cfg) && Possible(cfg, ls) && i <= |ls| && Unreset(ls, i, key)
    ensures var s, start := After(cfg, ls), After(cfg, ls[..i]);
            (Admissions(s.log, key) - Admissions(start.log, key)) as real
            <= cfg.burst as real + TB.Earned(cfg.rate, start.clock, s.clock)
               + (|Stragglers(start, key)| + LeftBehind(cfg, ls, key) - LeftBehind(cfg, ls[..i], key)) as real
  {
    PossiblePrefix(cfg, ls, i);
    AlwaysSound(cfg, ls);
    AlwaysSound(cfg, ls[..i]);
    KeyLevelInRange(cfg, After(cfg, ls), key);
    KeyLevelInRange(cfg, After(cfg, ls[..i]), key);
    CommittedSince(cfg, ls, i, key);
    EarnedInAll(cfg, ls, i);
    StaleAccount(cfg, ls, key);
    StaleAccount(cfg, ls[..i], key);
  }

  // ----- A straggler is served on top of the limit -----

  lemma Onwards(cfg: Config, ls: seq<Label>, l: Label) returns (ls': seq<Label>)
    requires Possible(cfg, ls) && Enabled(After(cfg, ls), l)
    ensures ls' == ls + [l] && Possible(cfg, ls') && After(cfg, ls') == Apply(cfg, After(cfg, ls), l)
  {
    ls' := ls + [l];
    assert ls'[..|ls|] == ls;
    forall k | 0 <= k < |ls'| ensures Enabled(After(cfg, ls'[..k]), ls'[k]) {
      if k < |ls| { assert ls'[..k] == ls[..k]; }
    }
  }

  /** A run that goes on from `ls` without dropping anything and without time passing. */
  ghost predicate GoesOn(cfg: Config, ls: seq<Label>, ls': seq<Label>) {
    && ls <= ls' && Possible(cfg, ls') && After(cfg, ls').clock == After(cfg, ls).clock
    && forall k | |ls| <= k < |ls'| :: !ls'[k].Drop?
  }

  lemma MoveOn(cfg: Config, ls: seq<Label>, l: Label) returns (ls': seq<Label>)
    requires Possible(cfg, ls) && Enabled(After(cfg, ls), l) && !l.Drop? && !l.Tick?
    ensures GoesOn(cfg, ls, ls') && After(cfg, ls') == Apply(cfg, After(cfg, ls), l)
  {
    ls' := Onwards(cfg, ls, l);
  }

  lemma GoesOnAgain(cfg: Config, a: seq<Label>, b: seq<Label>, c: seq<Label>)
    requires GoesOn(cfg, a, b) && GoesOn(cfg, b, c)
    ensures GoesOn(cfg, a, c)
  {
    forall k | |a| <= k < |c| ensures !c[k].Drop? { if k < |b| { assert c[k] == b[k]; } }
  }

  lemma LooksUp(cfg: Config, s: System, t: nat, key: string)
    requires PcOf(s, t) == Lookup(key)
    ensures var s' := Apply(cfg, s, Move(t));
            && s'.log == s.log && s'.limiters == s.limiters && KeyLevel(cfg, s', key) == KeyLevel(cfg, s, key)
            && PcOf(s', t) == if key in s.limiters then Holding(key, s.limiters[key]) else Missed(key)
  {
  }

  lemma MakesLimiter(cfg: Config, s: System, t: nat, key: string)
    requires PcOf(s, t) == Missed(key) && key !in s.limiters
    ensures var s' := Apply(cfg, s, Move(t));
            && s'.log == s.log && KeyLevel(cfg, s', key) == KeyLevel(cfg, s, key)
            && key in s'.limiters && PcOf(s', t) == Holding(key, s'.limiters[key])
  {
    assert TB.Earned(cfg.rate, s.clock, s.clock) == 0.0;
  }

  lemma GetsLimiter(cfg: Config, ls: seq<Label>, t: nat, key: string) returns (ls': seq<Label>)
    requires ValidConfig(cfg) && Possible(cfg, ls) && key != "" && PcOf(After(cfg, ls), t) == Lookup(key)
    ensures GoesOn(cfg, ls, ls') && After(cfg, ls').log == After(cfg, ls).log
    ensures KeyLevel(cfg, After(cfg, ls'), key) == KeyLevel(cfg, After(cfg, ls), key)
    ensures key in After(cfg, ls').limiters && PcOf(After(cfg, ls'), t) == Holding(key, After(cfg, ls').limiters[key])
  {
    LooksUp(cfg, After(cfg, ls), t, key);
    ls' := MoveOn(cfg, ls, Move(t));
    if key !in After(cfg, ls).limiters {
      MakesLimiter(cfg, After(cfg, ls'), t, key);
      var next := MoveOn(cfg, ls', Move(t));
      GoesOnAgain(cfg, ls, ls', next);
      ls' := next;
    }
  }

  lemma TakesToken(cfg: Config, s: System, t: nat, key: string)
    requires Sound(cfg, s) && key in s.limiters && PcOf(s, t) == Holding(key, s.limiters[key])
    requires KeyLevel(cfg, s, key) >= 1.0
    ensures var s' := Apply(cfg, s, Move(t));
            && KeyLevel(cfg, s', key) == KeyLevel(cfg, s, key) - 1.0
            && Admissions(s'.log, key) == Admissions(s.log, key) + 1 && PcOf(s', t) == Resting
  {
    assert MadeFor(s, s.limiters[key], key);
    var e := Served(key, s.limiters[key], s.clock, TB.Admits(s.heap[s.limiters[key]], s.clock));
    assert (s.log + [e])[..|s.log|] == s.log;
    TB.LevelAfterAllow(s.heap[s.limiters[key]], s.clock);
  }

  lemma AskOnce(cfg: Config, ls: seq<Label>, t: nat, key: string) returns (ls': seq<Label>)
    requires ValidConfig(cfg) && Possible(cfg, ls) && key != "" && PcOf(After(cfg, ls), t) == Resting
    requires KeyLevel(cfg, After(cfg, ls), key) >= 1.0
    ensures GoesOn(cfg, ls, ls') && PcOf(After(cfg, ls'), t) == Resting
    ensures KeyLevel(cfg, After(cfg, ls'), key) == KeyLevel(cfg, After(cfg, ls), key) - 1.0
    ensures Admissions(After(cfg, ls').log, key) == Admissions(After(cfg, ls).log, key) + 1
  {
    var called := MoveOn(cfg, ls, Call(t, key));
    var ready := GetsLimiter(cfg, called, t, key);
    GoesOnAgain(cfg, ls, called, ready);
    AlwaysSound(cfg, ready);
    TakesToken(cfg, After(cfg, ready), t, key);
    ls' := MoveOn(cfg, ready, Move(t));
    GoesOnAgain(cfg, ls, ready, ls');
  }

  lemma {:induction false} AskTimes(cfg: Config, ls: seq<Label>, t: nat, key: string, n: nat) returns (ls': seq<Label>)
    requires ValidConfig(cfg) && Possible(cfg, ls) && key != "" && PcOf(After(cfg, ls), t) == Resting
    requires KeyLevel(cfg, After(cfg, ls), key) >= n as real
    ensures GoesOn(cfg, ls, ls')
    ensures Admissions(After(cfg, ls').log, key) == Admissions(After(cfg, ls).log, key) + n
    decreases n
  {
    if n == 0 {
      ls' := ls;
    } else {
      var once := AskOnce(cfg, ls, t, key);
      ls' := AskTimes(cfg, once, t, key, n - 1);
      GoesOnAgain(cfg, ls, once, ls');
    }
  }

  lemma UnresetOnwards(cfg: Config, ls: seq<Label>, l: Label, key: string) returns (ls': seq<Label>)
    requires Possible(cfg, ls) && Enabled(After(cfg, ls), l) && Unreset(ls, 0, key) && !Resets(l, key)
    ensures Possible(cfg, ls') && After(cfg, ls') == Apply(cfg, After(cfg, ls), l) && Unreset(ls', 0, key)
  {
    ls' := Onwards(cfg, ls, l);
  }

  /** Thread 0 has got the limiter of a key that nobody has used before. */
  lemma FirstHolder(cfg: Config, key: string) returns (ls: seq<Label>)
    requires ValidConfig(cfg) && key != ""
    ensures Possible(cfg, ls) && Unreset(ls, 0, key)
    ensures var s := After(cfg, ls);
            && s.limiters == map[key := 0] && s.threads.Keys == {0} && PcOf(s, 0) == Holding(key, 0) && s.log == []
            && s.heap == [TB.New(cfg.rate, cfg.burst, 0)] && s.clock == 0
  {
    ls := UnresetOnwards(cfg, [], Call(0, key), key);
    ls := UnresetOnwards(cfg, ls, Move(0), key);
    ls := UnresetOnwards(cfg, ls, Move(0), key);
  }

  /** It fell asleep, and Cleanup, finding the limiter full and idle, dropped it. */
  lemma StragglerHappens(cfg: Config, key: string) returns (ls: seq<Label>)
    requires ValidConfig(cfg) && key != ""
    ensures Possible(cfg, ls) && Unreset(ls, 0, key)
    ensures var s := After(cfg, ls);
            && s.limiters == map[] && PcOf(s, 0) == Holding(key, 0) && s.log == []
            && s.heap == [TB.New(cfg.rate, cfg.burst, 0)] && s.clock == TB.MAX_IDLE_TIME + 1
            && Stragglers(s, key) == {0} && PcOf(s, 1) == Resting
  {
    ls := FirstHolder(cfg, key);
    ls := UnresetOnwards(cfg, ls, Tick(TB.MAX_IDLE_TIME + 1), key);
    ls := UnresetOnwards(cfg, ls, Drop(key, false), key);
  }

  lemma StragglerServed(cfg: Config, ls: seq<Label>, key: string) returns (ls': seq<Label>)
    requires ValidConfig(cfg) && Possible(cfg, ls)
    requires var s := After(cfg, ls);
             && s.limiters == map[] && PcOf(s, 0) == Holding(key, 0) && s.log == []
             && s.heap == [TB.New(cfg.rate, cfg.burst, 0)] && s.clock == TB.MAX_IDLE_TIME + 1 && PcOf(s, 1) == Resting
    ensures GoesOn(cfg, ls, ls') && Admissions(After(cfg, ls').log, key) == 1
    ensures After(cfg, ls').limiters == map[] && PcOf(After(cfg, ls'), 1) == Resting
  {
    TB.EarnedGrows(cfg.rate, 0, TB.MAX_IDLE_TIME + 1);
    ls' := MoveOn(cfg, ls, Move(0));
  }

  /** The bound of KeyLimitUnderSweeps is reached: at one instant a key is granted its burst and, with one thread
      left behind by Cleanup, one request more. */
  lemma StragglerExceedsLimit(cfg: Config, key: string) returns (ls: seq<Label>, i: nat)
    requires ValidConfig(cfg) && key != ""
    ensures Possible(cfg, ls) && i <= |ls| && Unreset(ls, 0, key) && forall k | i <= k < |ls| :: !Drops(ls[k], key)
    ensures var s, start := After(cfg, ls), After(cfg, ls[..i]);
            && s.clock == start.clock && |Stragglers(start, key)| == 1
            && Admissions(s.log, key) - Admissions(start.log, key) == cfg.burst + 1
  {
    var before := StragglerHappens(cfg, key);
    i := |before|;
    var served := StragglerServed(cfg, before, key);
    ls := AskTimes(cfg, served, 1, key, cfg.burst);
    GoesOnAgain(cfg, before, served, ls);
    assert ls[..i] == before;
  }
}
