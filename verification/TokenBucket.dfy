/** One token bucket: its arithmetic as functions, and what every run of arrivals on it satisfies.
    Instants are nanoseconds, token counts are reals. */
module TokenBucket {

  const NANOS_PER_SECOND: real := 1_000_000_000.0
  const MAX_IDLE_TIME: int := 1_800_000_000_000

  /** Tokens per second: positive, as the configuration loader enforces. */
  type Rate = r: real | r > 0.0 witness 1.0

  datatype Bucket = Bucket(tokens: real, lastRefill: int, maxTokens: int, refillRate: Rate)

  datatype Stats = Stats(requests: int, remaining: int, resetTime: int, retryAfter: int)

  function Min(a: real, b: real): real {
    if a < b then a else b
  }

  /** Conversion of a float64 to an integer type: towards zero. */
  function Truncate(x: real): int {
    if x >= 0.0 then x.Floor else -(-x).Floor
  }

  /** Tokens that `rate` per second brings between two instants. */
  function Earned(rate: Rate, from: int, to: int): real {
    rate * ((to - from) as real / NANOS_PER_SECOND)
  }

  /** A new bucket is full. */
  function New(rate: Rate, burst: int, now: int): Bucket {
    Bucket(burst as real, now, burst, rate)
  }

  /** The refilled token count at an instant. */
  function Level(b: Bucket, now: int): real {
    Min(b.tokens + Earned(b.refillRate, b.lastRefill, now), b.maxTokens as real)
  }

  predicate Admits(b: Bucket, now: int) {
    Level(b, now) >= 1.0
  }

  function Allow(b: Bucket, now: int): Bucket {
    b.(tokens := if Admits(b, now) then Level(b, now) - 1.0 else Level(b, now), lastRefill := now)
  }

  function StatsOf(b: Bucket, now: int): Stats {
    var remaining := Truncate(Level(b, now));
    Stats(b.maxTokens - remaining, remaining,
          now + Truncate(b.maxTokens as real / b.refillRate) * 1_000_000_000,
          if remaining == 0 then Truncate(NANOS_PER_SECOND / b.refillRate) else 0)
  }

  predicate Idle(b: Bucket, now: int) {
    now - b.lastRefill > MAX_IDLE_TIME && b.tokens >= b.maxTokens as real
  }

  // ----- Refilling -----

  lemma EarnedAdds(rate: Rate, t: int, u: int, v: int)
    ensures Earned(rate, t, u) + Earned(rate, u, v) == Earned(rate, t, v)
  {
    var x, y := (u - t) as real / NANOS_PER_SECOND, (v - u) as real / NANOS_PER_SECOND;
    assert (v - t) as real / NANOS_PER_SECOND == x + y;
    assert rate * x + rate * y == rate * (x + y);
  }

  lemma EarnedGrows(rate: Rate, t: int, u: int)
    requires t <= u
    ensures Earned(rate, t, u) >= 0.0
  {
  }

  /** How the refills are spread over time does not matter. */
  lemma LevelLater(b: Bucket, now: int, later: int)
    requires now <= later
    ensures Level(b, later) == Min(Level(b, now) + Earned(b.refillRate, now, later), b.maxTokens as real)
  {
    EarnedAdds(b.refillRate, b.lastRefill, now, later);
    EarnedGrows(b.refillRate, now, later);
  }

  // ----- Runs of arrivals -----

  predicate Sorted(ts: seq<int>) {
    forall i, j | 0 <= i <= j < |ts| :: ts[i] <= ts[j]
  }

  lemma SortedMore(start: int, ts: seq<int>, now: int, last: int)
    requires Sorted([start] + ts + [now]) && now <= last
    ensures Sorted([start] + ts + [last])
    ensures Sorted([start] + (ts + [now]) + [last])
  {
    var xs := [start] + ts + [now];
    var ys := [start] + ts + [last];
    assert forall i | 0 <= i < |ts| + 1 :: ys[i] == xs[i];
    var zs := [start] + (ts + [now]) + [last];
    assert zs == xs + [last];
    assert forall i | 0 <= i <= |ts| + 1 :: xs[i] <= xs[|ts| + 1];
  }

  /** The bucket after the arrivals `ts`. */
  function After(b: Bucket, ts: seq<int>): Bucket
    decreases |ts|
  {
    if ts == [] then b else Allow(After(b, ts[..|ts| - 1]), ts[|ts| - 1])
  }

  /** What allow answers to each of the arrivals. */
  function Answers(b: Bucket, ts: seq<int>): (r: seq<bool>)
    ensures |r| == |ts|
    decreases |ts|
  {
    if ts == [] then []
    else Answers(b, ts[..|ts| - 1]) + [Admits(After(b, ts[..|ts| - 1]), ts[|ts| - 1])]
  }

  function Count(picks: seq<bool>): nat {
    if picks == [] then 0 else Count(picks[..|picks| - 1]) + if picks[|picks| - 1] then 1 else 0
  }

  lemma CountNext(picks: seq<bool>, i: nat, j: nat)
    requires i <= j < |picks|
    ensures Count(picks[i..j + 1]) == Count(picks[i..j]) + if picks[j] then 1 else 0
  {
    assert picks[i..j + 1][..j - i] == picks[i..j];
  }

  lemma {:induction false} AnswersPrefix(b: Bucket, ts: seq<int>, j: nat)
    requires j < |ts|
    ensures Answers(b, ts)[j] == Admits(After(b, ts[..j]), ts[j])
    ensures Answers(b, ts)[..j] == Answers(b, ts[..j])
    decreases |ts|
  {
    var n := |ts| - 1;
    if j < n {
      assert ts[..n][..j] == ts[..j];
      AnswersPrefix(b, ts[..n], j);
    }
  }

  lemma {:induction false} TokensStayInRange(rate: Rate, burst: int, start: int, ts: seq<int>)
    requires burst >= 0 && Sorted([start] + ts)
    ensures 0.0 <= After(New(rate, burst, start), ts).tokens <= burst as real
    ensures After(New(rate, burst, start), ts).lastRefill == (if ts == [] then start else ts[|ts| - 1])
    ensures After(New(rate, burst, start), ts).maxTokens == burst && After(New(rate, burst, start), ts).refillRate == rate
  {
    if ts != [] {
      var n := |ts| - 1;
      assert ([start] + ts)[..n + 1] == [start] + ts[..n];
      assert forall i | 0 <= i <= n :: ([start] + ts[..n])[i] == ([start] + ts)[i];
      TokensStayInRange(rate, burst, start, ts[..n]);
      var last := After(New(rate, burst, start), ts[..n]).lastRefill;
      assert last == ([start] + ts)[n] && ts[n] == ([start] + ts)[n + 1];
      EarnedGrows(rate, last, ts[n]);
    }
  }

  // ----- Policies: which arrivals to admit -----

  /** The refilled token count at arrival `j` when `picks` says which earlier arrivals took a token. */
  function Tokens(rate: Rate, burst: int, ts: seq<int>, picks: seq<bool>, j: nat): real
    requires j < |ts| && |picks| == |ts|
  {
    if j == 0 then burst as real
    else Min(Tokens(rate, burst, ts, picks, j - 1) - (if picks[j - 1] then 1.0 else 0.0) + Earned(rate, ts[j - 1], ts[j]),
             burst as real)
  }

  /** A policy the bucket can pay for: it takes a token only where there is one. */
  predicate Affords(rate: Rate, burst: int, ts: seq<int>, picks: seq<bool>)
    requires |picks| == |ts|
  {
    forall j | 0 <= j < |ts| && picks[j] :: Tokens(rate, burst, ts, picks, j) >= 1.0
  }

  /** The rate limit as promised to users: no window holds more admissions than burst + rate * length. */
  predicate Conforms(rate: Rate, burst: int, ts: seq<int>, picks: seq<bool>)
    requires |picks| == |ts|
  {
    forall i, j | 0 <= i <= j < |ts| :: Count(picks[i..j + 1]) as real <= burst as real + Earned(rate, ts[i], ts[j])
  }

  /** What the window from arrival `i` leaves for arrival `j`. */
  function Slack(rate: Rate, burst: int, ts: seq<int>, picks: seq<bool>, i: nat, j: nat): real
    requires i <= j < |ts| && |picks| == |ts|
  {
    burst as real + Earned(rate, ts[i], ts[j]) - Count(picks[i..j]) as real
  }

  lemma SlackNext(rate: Rate, burst: int, ts: seq<int>, picks: seq<bool>, i: nat, j: nat)
    requires i <= j && j + 1 < |ts| && |picks| == |ts|
    ensures Slack(rate, burst, ts, picks, i, j + 1) ==
            Slack(rate, burst, ts, picks, i, j) - (if picks[j] then 1.0 else 0.0) + Earned(rate, ts[j], ts[j + 1])
  {
    CountNext(picks, i, j);
    EarnedAdds(rate, ts[i], ts[j], ts[j + 1]);
  }

  /** The closed form: the token count is the least slack over all windows that end here. */
  lemma {:induction false} TokensClosedForm(rate: Rate, burst: int, ts: seq<int>, picks: seq<bool>, j: nat)
    requires j < |ts| && |picks| == |ts|
    ensures forall i: nat | i <= j :: Tokens(rate, burst, ts, picks, j) <= Slack(rate, burst, ts, picks, i, j)
    ensures exists i: nat :: i <= j && Tokens(rate, burst, ts, picks, j) == Slack(rate, burst, ts, picks, i, j)
  {
    assert picks[j..j] == [] && Slack(rate, burst, ts, picks, j, j) == burst as real;
    if j > 0 {
      TokensClosedForm(rate, burst, ts, picks, j - 1);
      forall i: nat | i < j
        ensures Slack(rate, burst, ts, picks, i, j) ==
                Slack(rate, burst, ts, picks, i, j - 1) - (if picks[j - 1] then 1.0 else 0.0) + Earned(rate, ts[j - 1], ts[j])
      {
        SlackNext(rate, burst, ts, picks, i, j - 1);
      }
      var i: nat :| i <= j - 1 && Tokens(rate, burst, ts, picks, j - 1) == Slack(rate, burst, ts, picks, i, j - 1);
      assert Tokens(rate, burst, ts, picks, j) == Slack(rate, burst, ts, picks, if Slack(rate, burst, ts, picks, i, j) < burst as real then i else j, j);
    }
  }

  lemma {:induction false} LastPick(picks: seq<bool>, i: nat, j: nat) returns (k: int)
    requires i <= j < |picks|
    ensures k == i - 1 || (i <= k <= j && picks[k])
    ensures Count(picks[i..j + 1]) == Count(picks[i..k + 1])
    ensures k == i - 1 ==> Count(picks[i..j + 1]) == 0
    decreases j
  {
    CountNext(picks, i, j);
    if picks[j] { k := j; }
    else if i == j { k := i - 1; assert picks[i..i] == []; }
    else { k := LastPick(picks, i, j - 1); }
  }

  lemma WindowOfAffordable(rate: Rate, burst: int, ts: seq<int>, picks: seq<bool>, i: nat, j: nat)
    requires burst >= 0 && Sorted(ts) && |picks| == |ts|
    requires Affords(rate, burst, ts, picks) && i <= j < |ts|
    ensures Count(picks[i..j + 1]) as real <= burst as real + Earned(rate, ts[i], ts[j])
  {
    var k := LastPick(picks, i, j);
    EarnedGrows(rate, ts[i], ts[j]);
    if k >= i {
      TokensClosedForm(rate, burst, ts, picks, k);
      assert Tokens(rate, burst, ts, picks, k) <= Slack(rate, burst, ts, picks, i, k);
      CountNext(picks, i, k);
      EarnedAdds(rate, ts[i], ts[k], ts[j]);
      EarnedGrows(rate, ts[k], ts[j]);
    }
  }

  /** The bucket pays for exactly the policies that keep the promise. */
  lemma AffordableIffConforming(rate: Rate, burst: int, ts: seq<int>, picks: seq<bool>)
    requires burst >= 0 && Sorted(ts) && |picks| == |ts|
    ensures Affords(rate, burst, ts, picks) <==> Conforms(rate, burst, ts, picks)
  {
    if Affords(rate, burst, ts, picks) {
      forall i, j | 0 <= i <= j < |ts|
        ensures Count(picks[i..j + 1]) as real <= burst as real + Earned(rate, ts[i], ts[j])
      {
        WindowOfAffordable(rate, burst, ts, picks, i, j);
      }
    }
    if Conforms(rate, burst, ts, picks) {
      forall j | 0 <= j < |ts| && picks[j] ensures Tokens(rate, burst, ts, picks, j) >= 1.0 {
        TokensClosedForm(rate, burst, ts, picks, j);
        var i: nat :| i <= j && Tokens(rate, burst, ts, picks, j) == Slack(rate, burst, ts, picks, i, j);
        CountNext(picks, i, j);
      }
    }
  }

  // ----- allow is the greedy policy -----

  lemma {:induction false} AllowIsGreedy(rate: Rate, burst: int, start: int, ts: seq<int>, j: nat)
    requires burst >= 0 && Sorted([start] + ts) && j < |ts|
    ensures var picks := Answers(New(rate, burst, start), ts);
            && Level(After(New(rate, burst, start), ts[..j]), ts[j]) == Tokens(rate, burst, ts, picks, j)
            && picks[j] == (Tokens(rate, burst, ts, picks, j) >= 1.0)
  {
    var b := New(rate, burst, start);
    AnswersPrefix(b, ts, j);
    if j == 0 {
      assert ([start] + ts)[0] <= ([start] + ts)[1];
      EarnedGrows(rate, start, ts[0]);
      assert ts[..0] == [];
    } else {
      AllowIsGreedy(rate, burst, start, ts, j - 1);
      AnswersPrefix(b, ts, j - 1);
      assert ts[..j][..j - 1] == ts[..j - 1];
      assert forall i | 0 <= i <= j :: ([start] + ts[..j])[i] == ([start] + ts)[i];
      TokensStayInRange(rate, burst, start, ts[..j]);
    }
  }

  lemma SortedTail(start: int, ts: seq<int>)
    requires Sorted([start] + ts)
    ensures Sorted(ts)
  {
    forall i, j | 0 <= i <= j < |ts| ensures ts[i] <= ts[j] {
      assert ([start] + ts)[i + 1] <= ([start] + ts)[j + 1];
    }
  }

  /** The window bound: what allow admits keeps the promise, in every run. */
  lemma AllowConforms(rate: Rate, burst: int, start: int, ts: seq<int>)
    requires burst >= 0 && Sorted([start] + ts)
    ensures Conforms(rate, burst, ts, Answers(New(rate, burst, start), ts))
  {
    var picks := Answers(New(rate, burst, start), ts);
    forall j | 0 <= j < |ts| && picks[j] ensures Tokens(rate, burst, ts, picks, j) >= 1.0 {
      AllowIsGreedy(rate, burst, start, ts, j);
    }
    SortedTail(start, ts);
    AffordableIffConforming(rate, burst, ts, picks);
  }

  /** ... and so for any window of time: arrivals i..j inside [s, e]. */
  lemma WindowBound(rate: Rate, burst: int, start: int, ts: seq<int>, s: int, e: int, i: nat, j: nat)
    requires burst >= 0 && Sorted([start] + ts)
    requires i <= j < |ts| && s <= ts[i] && ts[j] <= e
    ensures Count(Answers(New(rate, burst, start), ts)[i..j + 1]) as real <= burst as real + Earned(rate, s, e)
  {
    AllowConforms(rate, burst, start, ts);
    EarnedAdds(rate, s, ts[i], ts[j]);
    EarnedAdds(rate, s, ts[j], e);
    EarnedGrows(rate, s, ts[i]);
    EarnedGrows(rate, ts[j], e);
  }

  predicate Greedy(rate: Rate, burst: int, ts: seq<int>, picks: seq<bool>)
    requires |picks| == |ts|
  {
    forall j | 0 <= j < |ts| :: picks[j] == (Tokens(rate, burst, ts, picks, j) >= 1.0)
  }

  lemma LeadStep(g: real, p: real, lead: int, admits: bool, picks: bool, earned: real, cap: real)
    requires p <= g + lead as real && lead >= 0
    requires admits == (g >= 1.0) && (picks ==> p >= 1.0)
    ensures var lead' := lead + (if admits then 1 else 0) - (if picks then 1 else 0);
            && lead' >= 0
            && Min(p - (if picks then 1.0 else 0.0) + earned, cap)
               <= Min(g - (if admits then 1.0 else 0.0) + earned, cap) + lead' as real
  {
    if picks && !admits { assert lead as real > 0.0; }
  }

  lemma CountPrefix(picks: seq<bool>, k: nat)
    requires 0 < k <= |picks|
    ensures Count(picks[..k]) == Count(picks[..k - 1]) + if picks[k - 1] then 1 else 0
  {
    assert picks[..k][..k - 1] == picks[..k - 1];
  }

  /** While the greedy policy is ahead by d admissions it is behind by at most d tokens. */
  lemma {:induction false} GreedyLead(rate: Rate, burst: int, ts: seq<int>, greedy: seq<bool>, picks: seq<bool>, k: nat)
    requires |greedy| == |picks| == |ts| && k < |ts|
    requires Greedy(rate, burst, ts, greedy) && Affords(rate, burst, ts, picks)
    ensures Count(picks[..k]) <= Count(greedy[..k])
    ensures Tokens(rate, burst, ts, picks, k) <=
            Tokens(rate, burst, ts, greedy, k) + (Count(greedy[..k]) - Count(picks[..k])) as real
  {
    if k > 0 {
      GreedyLead(rate, burst, ts, greedy, picks, k - 1);
      CountPrefix(picks, k);
      CountPrefix(greedy, k);
      var g, p := Tokens(rate, burst, ts, greedy, k - 1), Tokens(rate, burst, ts, picks, k - 1);
      LeadStep(g, p, Count(greedy[..k - 1]) - Count(picks[..k - 1]), greedy[k - 1], picks[k - 1],
               Earned(rate, ts[k - 1], ts[k]), burst as real);
    }
  }

  /** Greedy admission is optimal: no choice of arrivals that keeps the promise has, at any point,
      admitted more requests than allow has. */
  lemma GreedyIsOptimal(rate: Rate, burst: int, start: int, ts: seq<int>, picks: seq<bool>, k: nat)
    requires burst >= 0 && Sorted([start] + ts)
    requires |picks| == |ts| && Conforms(rate, burst, ts, picks) && k <= |ts|
    ensures Count(picks[..k]) <= Count(Answers(New(rate, burst, start), ts)[..k])
  {
    var greedy := Answers(New(rate, burst, start), ts);
    forall j | 0 <= j < |ts| ensures greedy[j] == (Tokens(rate, burst, ts, greedy, j) >= 1.0) {
      AllowIsGreedy(rate, burst, start, ts, j);
    }
    SortedTail(start, ts);
    AffordableIffConforming(rate, burst, ts, picks);
    if k > 0 {
      GreedyLead(rate, burst, ts, greedy, picks, k - 1);
      CountPrefix(picks, k);
      CountPrefix(greedy, k);
    }
  }

  // ----- Exact conformance -----

  lemma {:induction false} CountAll(picks: seq<bool>)
    requires forall i | 0 <= i < |picks| :: picks[i]
    ensures Count(picks) == |picks|
  {
    if picks != [] { CountAll(picks[..|picks| - 1]); }
  }

  lemma {:induction false} CountAllConverse(picks: seq<bool>)
    ensures Count(picks) <= |picks|
    ensures Count(picks) == |picks| ==> forall i | 0 <= i < |picks| :: picks[i]
  {
    if picks != [] { CountAllConverse(picks[..|picks| - 1]); }
  }

  /** Traffic within the promise, arrival by arrival. */
  predicate WithinLimit(rate: Rate, burst: int, ts: seq<int>) {
    forall i, j | 0 <= i <= j < |ts| :: (j - i + 1) as real <= burst as real + Earned(rate, ts[i], ts[j])
  }

  lemma AllPicksConform(rate: Rate, burst: int, ts: seq<int>, all: seq<bool>)
    requires |all| == |ts| && forall i | 0 <= i < |ts| :: all[i]
    ensures Conforms(rate, burst, ts, all) <==> WithinLimit(rate, burst, ts)
  {
    if Conforms(rate, burst, ts, all) {
      forall i, j | 0 <= i <= j < |ts| ensures (j - i + 1) as real <= burst as real + Earned(rate, ts[i], ts[j]) {
        CountAll(all[i..j + 1]);
      }
    }
    if WithinLimit(rate, burst, ts) {
      forall i, j | 0 <= i <= j < |ts| ensures Count(all[i..j + 1]) as real <= burst as real + Earned(rate, ts[i], ts[j]) {
        CountAll(all[i..j + 1]);
      }
    }
  }

  predicate AdmitsAll(b: Bucket, ts: seq<int>) {
    forall j | 0 <= j < |ts| :: Answers(b, ts)[j]
  }

  lemma NothingRejected(rate: Rate, burst: int, start: int, ts: seq<int>)
    requires burst >= 0 && Sorted([start] + ts)
    ensures WithinLimit(rate, burst, ts) ==> AdmitsAll(New(rate, burst, start), ts)
  {
    if WithinLimit(rate, burst, ts) {
      var picks, all := Answers(New(rate, burst, start), ts), seq(|ts|, _ => true);
      AllPicksConform(rate, burst, ts, all);
      GreedyIsOptimal(rate, burst, start, ts, all, |ts|);
      assert all[..|ts|] == all && picks[..|ts|] == picks;
      CountAll(all);
      CountAllConverse(picks);
    }
  }

  lemma AllAdmitted(rate: Rate, burst: int, start: int, ts: seq<int>)
    requires burst >= 0 && Sorted([start] + ts)
    ensures AdmitsAll(New(rate, burst, start), ts) ==> WithinLimit(rate, burst, ts)
  {
    if AdmitsAll(New(rate, burst, start), ts) {
      AllowConforms(rate, burst, start, ts);
      AllPicksConform(rate, burst, ts, Answers(New(rate, burst, start), ts));
    }
  }

  /** allow rejects nothing exactly when every stretch of arrivals is within the limit. */
  lemma ExactConformance(rate: Rate, burst: int, start: int, ts: seq<int>)
    requires burst >= 0 && Sorted([start] + ts)
    ensures AdmitsAll(New(rate, burst, start), ts) <==> WithinLimit(rate, burst, ts)
  {
    AllAdmitted(rate, burst, start, ts);
    NothingRejected(rate, burst, start, ts);
  }

  /** While it rejects nothing, the refilled token count is the closed form over stretch lengths. */
  lemma LevelWhileAllAdmitted(rate: Rate, burst: int, start: int, ts: seq<int>, j: nat)
    requires burst >= 0 && Sorted([start] + ts) && j < |ts|
    requires forall i | 0 <= i < j :: Answers(New(rate, burst, start), ts)[i]
    ensures var level := Level(After(New(rate, burst, start), ts[..j]), ts[j]);
            && (forall i: nat | i <= j :: level <= burst as real + Earned(rate, ts[i], ts[j]) - (j - i) as real)
            && (exists i: nat :: i <= j && level == burst as real + Earned(rate, ts[i], ts[j]) - (j - i) as real)
  {
    var picks := Answers(New(rate, burst, start), ts);
    AllowIsGreedy(rate, burst, start, ts, j);
    TokensClosedForm(rate, burst, ts, picks, j);
    forall i: nat | i <= j
      ensures Slack(rate, burst, ts, picks, i, j) == burst as real + Earned(rate, ts[i], ts[j]) - (j - i) as real
    {
      CountAll(picks[i..j]);
    }
    var i: nat :| i <= j && Tokens(rate, burst, ts, picks, j) == Slack(rate, burst, ts, picks, i, j);
  }

  // ----- Stats -----

  lemma LevelAfterAllow(b: Bucket, now: int)
    ensures Level(Allow(b, now), now) == Level(b, now) - if Admits(b, now) then 1.0 else 0.0
  {
    assert Earned(b.refillRate, now, now) == 0.0;
  }

  function Calls(now: int, n: nat): seq<int> {
    seq(n, _ => now)
  }

  lemma {:induction false} LevelAfterBurst(b: Bucket, now: int, n: nat)
    requires 0.0 <= Level(b, now)
    ensures var k := Level(b, now).Floor;
            Level(After(b, Calls(now, n)), now) == Level(b, now) - (if n <= k then n else k) as real
  {
    if n > 0 {
      assert Calls(now, n)[..n - 1] == Calls(now, n - 1);
      LevelAfterBurst(b, now, n - 1);
      LevelAfterAllow(After(b, Calls(now, n - 1)), now);
    }
  }

  /** Remaining = k says exactly this: of any number of calls made at that instant the first k are admitted. */
  lemma RemainingIsExact(b: Bucket, now: int, n: nat)
    requires 0.0 <= Level(b, now)
    ensures forall i | 0 <= i < n :: Answers(b, Calls(now, n))[i] <==> i < StatsOf(b, now).remaining
    ensures StatsOf(b, now).requests + StatsOf(b, now).remaining == b.maxTokens
  {
    forall i | 0 <= i < n ensures Answers(b, Calls(now, n))[i] <==> i < StatsOf(b, now).remaining {
      AnswersPrefix(b, Calls(now, n), i);
      assert Calls(now, n)[..i] == Calls(now, i);
      LevelAfterBurst(b, now, i);
    }
  }

  lemma WaitEnough(rate: Rate, now: int, later: int)
    requires (later - now) as real >= NANOS_PER_SECOND / rate
    ensures Earned(rate, now, later) >= 1.0
  {
    var x := (later - now) as real / NANOS_PER_SECOND;
    assert x >= 1.0 / rate;
    assert rate * x >= rate * (1.0 / rate);
  }

  /** A lone client that waits RetryAfter and one nanosecond more is admitted. */
  lemma RetryAfterWorks(b: Bucket, now: int, later: int)
    requires b.maxTokens >= 1 && 0.0 <= Level(b, now)
    requires later >= now + StatsOf(b, now).retryAfter + 1
    ensures Admits(b, later)
  {
    LevelLater(b, now, later);
    if StatsOf(b, now).remaining == 0 {
      WaitEnough(b.refillRate, now, later);
    } else {
      EarnedGrows(b.refillRate, now, later);
    }
  }

  /** A token takes NANOS_PER_SECOND / rate nanoseconds; `need` of one takes that share of it. */
  lemma EarnsShare(rate: Rate, now: int, wait: nat, need: real)
    ensures Earned(rate, now, now + wait) >= need <==> need * (NANOS_PER_SECOND / rate) <= wait as real
  {
    var token := NANOS_PER_SECOND / rate;
    var earned := Earned(rate, now, now + wait);
    assert earned * token == wait as real by {
      var x := wait as real / NANOS_PER_SECOND;
      assert earned == rate * x && token * rate == NANOS_PER_SECOND;
      assert (rate * x) * token == x * (token * rate);
    }
    assert token > 0.0;
    if earned >= need { assert need * token <= earned * token; } else { assert need * token > earned * token; }
  }

  /** RetryAfter alone, without the extra nanosecond, is enough exactly when the missing part of a token takes no
      longer than the whole nanoseconds that a token takes. */
  lemma RetryAfterAlone(b: Bucket, now: int)
    requires b.maxTokens >= 1 && 0.0 <= Level(b, now) && StatsOf(b, now).remaining == 0
    ensures var token := NANOS_PER_SECOND / b.refillRate;
            Admits(b, now + StatsOf(b, now).retryAfter) <==> (1.0 - Level(b, now)) * token <= token.Floor as real
  {
    var token := NANOS_PER_SECOND / b.refillRate;
    assert token > 0.0 && StatsOf(b, now).retryAfter == token.Floor;
    LevelLater(b, now, now + token.Floor);
    EarnsShare(b.refillRate, now, token.Floor, 1.0 - Level(b, now));
  }

  /** The rates for which RetryAfter can be relied on: a token takes a whole number of nanoseconds. */
  lemma RetryAfterSuffices(rate: Rate, burst: int, now: int)
    requires burst >= 1
    ensures (forall b: Bucket | b.refillRate == rate && b.maxTokens == burst && 0.0 <= Level(b, now)
                                && StatsOf(b, now).remaining == 0 :: Admits(b, now + StatsOf(b, now).retryAfter))
            <==> NANOS_PER_SECOND / rate == (NANOS_PER_SECOND / rate).Floor as real
  {
    var token := NANOS_PER_SECOND / rate;
    assert token > 0.0;
    if token == token.Floor as real {
      forall b: Bucket | b.refillRate == rate && b.maxTokens == burst && 0.0 <= Level(b, now)
                         && StatsOf(b, now).remaining == 0
        ensures Admits(b, now + StatsOf(b, now).retryAfter)
      {
        RetryAfterAlone(b, now);
        assert (1.0 - Level(b, now)) * token <= 1.0 * token;
      }
    } else {
      var empty := Bucket(0.0, now, burst, rate);
      assert Earned(rate, now, now) == 0.0 && Level(empty, now) == 0.0;
      RetryAfterAlone(empty, now);
    }
  }

  /** Three requests a second, a burst of one: the client that was served at 0 and comes back after the RetryAfter
      it was told is refused. */
  lemma RetryAfterTooShort()
    ensures var b := After(New(3.0, 1, 0), [0]);
            && Answers(New(3.0, 1, 0), [0]) == [true]
            && StatsOf(b, 0).remaining == 0 && StatsOf(b, 0).retryAfter == 333_333_333
            && !Admits(b, 333_333_333)
  {
    assert [0][..0] == [];
    assert After(New(3.0, 1, 0), [0]) == Allow(New(3.0, 1, 0), 0) == Bucket(0.0, 0, 1, 3.0);
  }

  /** What `need` tokens take, in seconds. */
  lemma FillTime(rate: Rate, need: real, seconds: int)
    ensures need / rate <= seconds as real <==> rate * seconds as real >= need
  {
    var fill := need / rate;
    assert rate * fill == need;
    if fill <= seconds as real { assert rate * seconds as real >= rate * fill; }
    else { assert rate * seconds as real < rate * fill; }
  }

  lemma LevelSecondsLater(b: Bucket, now: int, seconds: nat)
    ensures Level(b, now + seconds * 1_000_000_000) ==
            Min(Level(b, now) + b.refillRate * seconds as real, b.maxTokens as real)
  {
    var later := now + seconds * 1_000_000_000;
    LevelLater(b, now, later);
    assert (later - now) as real / NANOS_PER_SECOND == seconds as real;
  }

  lemma FullAfter(b: Bucket, now: int, seconds: nat)
    ensures Level(b, now + seconds * 1_000_000_000) == b.maxTokens as real
            <==> (b.maxTokens as real - Level(b, now)) / b.refillRate <= seconds as real
  {
    LevelSecondsLater(b, now, seconds);
    FillTime(b.refillRate, b.maxTokens as real - Level(b, now), seconds);
  }

  lemma FillsSooner(rate: Rate, need: real, cap: real)
    requires need <= cap
    ensures need / rate <= cap / rate
  {
    assert rate * (cap / rate - need / rate) == cap - need;
  }

  /** ResetTime loses a fraction of a second too: a bucket left alone is full one second after it, and full at that
      very instant exactly when what it lacks takes no longer than the whole seconds that filling up takes. */
  lemma FullAtResetTime(b: Bucket, now: int)
    requires b.maxTokens >= 1 && 0.0 <= Level(b, now)
    ensures var fill, reset := b.maxTokens as real / b.refillRate, StatsOf(b, now).resetTime;
            && Level(b, reset + 1_000_000_000) == b.maxTokens as real
            && (Level(b, reset) == b.maxTokens as real
                <==> (b.maxTokens as real - Level(b, now)) / b.refillRate <= fill.Floor as real)
  {
    var fill := b.maxTokens as real / b.refillRate;
    assert fill >= 0.0;
    FullAfter(b, now, fill.Floor);
    FullAfter(b, now, fill.Floor + 1);
    FillsSooner(b.refillRate, b.maxTokens as real - Level(b, now), b.maxTokens as real);
  }

  /** The rates and bursts for which ResetTime can be relied on: filling up takes a whole number of seconds. */
  lemma ResetTimeSuffices(rate: Rate, burst: int, now: int)
    requires burst >= 1
    ensures (forall b: Bucket | b.refillRate == rate && b.maxTokens == burst && 0.0 <= Level(b, now) ::
               Level(b, StatsOf(b, now).resetTime) == burst as real)
            <==> burst as real / rate == (burst as real / rate).Floor as real
  {
    var fill := burst as real / rate;
    if fill == fill.Floor as real {
      forall b: Bucket | b.refillRate == rate && b.maxTokens == burst && 0.0 <= Level(b, now)
        ensures Level(b, StatsOf(b, now).resetTime) == burst as real
      {
        FullAtResetTime(b, now);
        FillsSooner(rate, burst as real - Level(b, now), burst as real);
      }
    } else {
      var empty := Bucket(0.0, now, burst, rate);
      assert Earned(rate, now, now) == 0.0 && Level(empty, now) == 0.0;
      FullAtResetTime(empty, now);
    }
  }

  /** Three requests a second, a burst of one: the bucket emptied at 0 is said to be full again at once. */
  lemma ResetTimeTooShort()
    ensures var b := After(New(3.0, 1, 0), [0]);
            StatsOf(b, 0).resetTime == 0 && Level(b, 0) == 0.0
  {
    assert [0][..0] == [];
    assert After(New(3.0, 1, 0), [0]) == Allow(New(3.0, 1, 0), 0) == Bucket(0.0, 0, 1, 3.0);
  }

  /** Conversion to an integer drops the fraction, whatever the sign. */
  lemma TruncateDropsFraction(x: real)
    ensures x >= 0.0 ==> Truncate(x) as real <= x < Truncate(x) as real + 1.0
    ensures x <= 0.0 ==> Truncate(x) as real - 1.0 < x <= Truncate(x) as real
  {
  }

  /** What RetryAfter says: nothing if the next call is admitted, and otherwise the whole nanoseconds in which a token
      comes in, no more and no less. */
  lemma RetryAfterExact(b: Bucket, now: int)
    requires 0.0 <= Level(b, now)
    ensures var wait := StatsOf(b, now).retryAfter;
            if Admits(b, now) then wait == 0
            else wait >= 0 && b.refillRate * wait as real <= NANOS_PER_SECOND < b.refillRate * (wait + 1) as real
  {
    var token := NANOS_PER_SECOND / b.refillRate;
    assert token > 0.0 && b.refillRate * token == NANOS_PER_SECOND;
    var whole := token.Floor;
    assert b.refillRate * whole as real <= b.refillRate * token < b.refillRate * (whole + 1) as real;
  }

  /** And no earlier call would do: an empty bucket admits nothing before RetryAfter has passed. */
  lemma NoSoonerThanRetryAfter(b: Bucket, now: int, wait: int)
    requires Level(b, now) == 0.0 && wait >= 0 && Admits(b, now + wait)
    ensures wait >= StatsOf(b, now).retryAfter
  {
    LevelLater(b, now, now + wait);
    EarnsShare(b.refillRate, now, wait, 1.0);
  }

  /** What ResetTime says: as many whole seconds from now as an empty bucket takes in without overflowing. */
  lemma ResetTimeExact(b: Bucket, now: int) returns (seconds: nat)
    requires b.maxTokens >= 0
    ensures StatsOf(b, now).resetTime == now + seconds * 1_000_000_000
    ensures b.refillRate * seconds as real <= b.maxTokens as real < b.refillRate * (seconds + 1) as real
  {
    var fill := b.maxTokens as real / b.refillRate;
    assert fill >= 0.0 && b.refillRate * fill == b.maxTokens as real;
    seconds := fill.Floor;
    assert b.refillRate * seconds as real <= b.refillRate * fill < b.refillRate * (seconds + 1) as real;
  }

  // ----- When a bucket may be replaced by a new one -----

  /** No arrivals from `now` on can tell the bucket from one made now. */
  ghost predicate Replaceable(b: Bucket, now: int) {
    forall ts | Sorted([now] + ts) :: Answers(b, ts) == Answers(New(b.refillRate, b.maxTokens, now), ts)
  }

  lemma {:induction false} FullIsReplaceable(b: Bucket, now: int, ts: seq<int>)
    requires Level(b, now) == b.maxTokens as real && Sorted([now] + ts)
    ensures Answers(b, ts) == Answers(New(b.refillRate, b.maxTokens, now), ts)
    ensures ts != [] ==> After(b, ts) == After(New(b.refillRate, b.maxTokens, now), ts)
  {
    if ts != [] {
      var n := |ts| - 1;
      assert forall i | 0 <= i <= n :: ([now] + ts[..n])[i] == ([now] + ts)[i];
      FullIsReplaceable(b, now, ts[..n]);
      if n == 0 {
        assert ([now] + ts)[0] <= ([now] + ts)[1];
        LevelLater(b, now, ts[0]);
        EarnedGrows(b.refillRate, now, ts[0]);
      }
    }
  }

  /** Replacing a bucket by a new one goes unnoticed exactly when it is full. */
  lemma ReplaceableIffFull(b: Bucket, now: int)
    requires b.maxTokens >= 1 && 0.0 <= Level(b, now)
    ensures Replaceable(b, now) <==> Level(b, now) == b.maxTokens as real
  {
    if Level(b, now) == b.maxTokens as real {
      forall ts | Sorted([now] + ts) ensures Answers(b, ts) == Answers(New(b.refillRate, b.maxTokens, now), ts) {
        FullIsReplaceable(b, now, ts);
      }
    }
    if Replaceable(b, now) {
      var n, made := b.maxTokens, New(b.refillRate, b.maxTokens, now);
      assert Earned(b.refillRate, now, now) == 0.0 && Level(made, now) == n as real;
      assert Sorted([now] + Calls(now, n));
      RemainingIsExact(b, now, n);
      RemainingIsExact(made, now, n);
      assert Answers(b, Calls(now, n))[n - 1] == Answers(made, Calls(now, n))[n - 1];
    }
  }

  /** What Cleanup relies on: an idle bucket is full, so that no caller will notice that it is gone. */
  lemma IdleIsReplaceable(b: Bucket, now: int)
    requires Idle(b, now)
    ensures Level(b, now) == b.maxTokens as real && Replaceable(b, now)
  {
    EarnedGrows(b.refillRate, b.lastRefill, now);
    forall ts | Sorted([now] + ts) ensures Answers(b, ts) == Answers(New(b.refillRate, b.maxTokens, now), ts) {
      FullIsReplaceable(b, now, ts);
    }
  }
}
