/** What the health checker makes of the check results of one target: its counters and its events as
    functions of the history of results. */
module HealthHistory {
  import opened Wrappers

  /** The result of one check, as far as Check fills it in. */
  datatype Outcome = Outcome(healthy: bool, lastCheck: int, responseTime: int, statusCode: int, error: Option<string>)

  datatype HealthStatus = HealthStatus(check: Outcome, consecutiveFailures: int, consecutiveSuccesses: int)

  /** The zero value of a status: what a first event carries as its old status. */
  const NO_STATUS := HealthStatus(Outcome(false, 0, 0, 0, None), 0, 0)

  datatype EventType = Passed | Failed | Recovered | Degraded

  datatype HealthEvent = HealthEvent(target: string, oldStatus: HealthStatus, newStatus: HealthStatus, kind: EventType)

  /** The status after one more check. */
  function Update(previous: Option<HealthStatus>, o: Outcome): HealthStatus {
    match previous
    case None => HealthStatus(o, if o.healthy then 0 else 1, if o.healthy then 1 else 0)
    case Some(p) =>
      if o.healthy then HealthStatus(o, 0, if p.check.healthy then p.consecutiveSuccesses + 1 else 1)
      else HealthStatus(o, if p.check.healthy then 1 else p.consecutiveFailures + 1, 0)
  }

  function OrZero(previous: Option<HealthStatus>): HealthStatus {
    match previous
    case None => NO_STATUS
    case Some(p) => p
  }

  /** The events published for one check, in order. */
  function EventsOf(name: string, previous: Option<HealthStatus>, next: HealthStatus, threshold: int): seq<HealthEvent> {
    var edge :=
      if previous.None? || previous.value.check.healthy != next.check.healthy then
        var kind := if !next.check.healthy then Failed else if previous.Some? then Recovered else Passed;
        [HealthEvent(name, OrZero(previous), next, kind)]
      else [];
    var degraded :=
      if 0 < next.consecutiveFailures < threshold && (previous.None? || previous.value.consecutiveFailures == 0)
      then [HealthEvent(name, OrZero(previous), next, Degraded)]
      else [];
    edge + degraded
  }

  // ----- Histories -----

  function StatusAfter(hist: seq<Outcome>): (r: Option<HealthStatus>)
    ensures r.Some? <==> hist != []
  {
    if hist == [] then None
    else Some(Update(StatusAfter(hist[..|hist| - 1]), hist[|hist| - 1]))
  }

  function EventsAfter(name: string, hist: seq<Outcome>, threshold: int): seq<HealthEvent> {
    if hist == [] then []
    else
      var init := hist[..|hist| - 1];
      EventsAfter(name, init, threshold) + EventsOf(name, StatusAfter(init), StatusAfter(hist).value, threshold)
  }

  /** The last k results agree, and no more than k do. */
  predicate TrailingRun(hist: seq<Outcome>, k: nat, healthy: bool) {
    && 1 <= k <= |hist|
    && (forall i | |hist| - k <= i < |hist| :: hist[i].healthy == healthy)
    && (k == |hist| || hist[|hist| - k - 1].healthy != healthy)
  }

  /** The counters are the lengths of the trailing run: one of them, the other is 0, and Healthy says which. */
  lemma {:induction false} CountersAreTrailingRuns(hist: seq<Outcome>, k: nat, healthy: bool)
    requires TrailingRun(hist, k, healthy)
    ensures var s := StatusAfter(hist).value;
            && s.check == hist[|hist| - 1] && s.check.healthy == healthy
            && s.consecutiveSuccesses == (if healthy then k else 0)
            && s.consecutiveFailures == (if healthy then 0 else k)
  {
    var init := hist[..|hist| - 1];
    if init != [] {
      if k == 1 {
        assert init[|init| - 1].healthy != healthy;
        ExactlyOneCounter(init);
      } else {
        assert TrailingRun(init, k - 1, healthy);
        CountersAreTrailingRuns(init, k - 1, healthy);
      }
    }
  }

  lemma {:induction false} ExactlyOneCounter(hist: seq<Outcome>)
    requires hist != []
    ensures var s := StatusAfter(hist).value;
            && s.check == hist[|hist| - 1]
            && s.consecutiveSuccesses >= 0 && s.consecutiveFailures >= 0
            && (s.check.healthy <==> s.consecutiveSuccesses > 0) && (s.check.healthy <==> s.consecutiveFailures == 0)
  {
    if |hist| > 1 { ExactlyOneCounter(hist[..|hist| - 1]); }
  }

  // ----- The event stream -----

  function Kinds(es: seq<HealthEvent>): (r: seq<EventType>)
    ensures |r| == |es| && forall i | 0 <= i < |es| :: r[i] == es[i].kind
  {
    seq(|es|, i requires 0 <= i < |es| => es[i].kind)
  }

  /** One entry per run of equal results. */
  function Edges(hist: seq<Outcome>): seq<EventType> {
    if hist == [] then []
    else if |hist| == 1 then [if hist[0].healthy then Passed else Failed]
    else if hist[|hist| - 1].healthy == hist[|hist| - 2].healthy then Edges(hist[..|hist| - 1])
    else Edges(hist[..|hist| - 1]) + [if hist[|hist| - 1].healthy then Recovered else Failed]
  }

  /** Puts Degraded behind every Failed. */
  function WithDegraded(kinds: seq<EventType>): seq<EventType> {
    if kinds == [] then []
    else WithDegraded(kinds[..|kinds| - 1])
         + if kinds[|kinds| - 1] == Failed then [Failed, Degraded] else [kinds[|kinds| - 1]]
  }

  lemma WithDegradedSnoc(kinds: seq<EventType>, k: EventType)
    ensures WithDegraded(kinds + [k]) == WithDegraded(kinds) + if k == Failed then [Failed, Degraded] else [k]
  {
    assert (kinds + [k])[..|kinds|] == kinds;
  }

  /** What one check adds to the edges: at most one. */
  function NewEdge(hist: seq<Outcome>): seq<EventType>
    requires hist != []
  {
    var n := |hist| - 1;
    if n == 0 then [if hist[0].healthy then Passed else Failed]
    else if hist[n].healthy == hist[n - 1].healthy then []
    else [if hist[n].healthy then Recovered else Failed]
  }

  lemma EventKinds(name: string, previous: Option<HealthStatus>, o: Outcome, threshold: int)
    requires previous.Some? ==> (previous.value.check.healthy <==> previous.value.consecutiveFailures == 0)
                                && previous.value.consecutiveFailures >= 0
    ensures Kinds(EventsOf(name, previous, Update(previous, o), threshold)) ==
            if previous.Some? && previous.value.check.healthy == o.healthy then []
            else if !o.healthy then (if threshold >= 2 then [Failed, Degraded] else [Failed])
            else if previous.Some? then [Recovered] else [Passed]
  {
  }

  lemma NewKinds(name: string, hist: seq<Outcome>, threshold: int)
    requires hist != []
    ensures Kinds(EventsOf(name, StatusAfter(hist[..|hist| - 1]), StatusAfter(hist).value, threshold)) ==
            if NewEdge(hist) == [Failed] && threshold >= 2 then [Failed, Degraded] else NewEdge(hist)
  {
    var init := hist[..|hist| - 1];
    if init != [] { ExactlyOneCounter(init); }
    EventKinds(name, StatusAfter(init), hist[|hist| - 1], threshold);
  }

  /** What one check adds to the kinds of the stream. */
  lemma KindsNext(name: string, hist: seq<Outcome>, threshold: int)
    requires hist != []
    ensures Kinds(EventsAfter(name, hist, threshold)) ==
            Kinds(EventsAfter(name, hist[..|hist| - 1], threshold))
            + if NewEdge(hist) == [Failed] && threshold >= 2 then [Failed, Degraded] else NewEdge(hist)
  {
    var init := hist[..|hist| - 1];
    var before := EventsAfter(name, init, threshold);
    var added := EventsOf(name, StatusAfter(init), StatusAfter(hist).value, threshold);
    assert Kinds(before + added) == Kinds(before) + Kinds(added);
    NewKinds(name, hist, threshold);
  }

  /** What one check adds to the edges, with and without Degraded. */
  lemma EdgesNext(hist: seq<Outcome>)
    requires hist != []
    ensures Edges(hist) == Edges(hist[..|hist| - 1]) + NewEdge(hist)
    ensures WithDegraded(Edges(hist)) ==
            WithDegraded(Edges(hist[..|hist| - 1]))
            + if NewEdge(hist) == [Failed] then [Failed, Degraded] else NewEdge(hist)
  {
    var init := Edges(hist[..|hist| - 1]);
    if NewEdge(hist) == [] {
      assert Edges(hist) == init;
    } else {
      assert Edges(hist) == init + [NewEdge(hist)[0]];
      WithDegradedSnoc(init, NewEdge(hist)[0]);
    }
  }

  /** The published stream is the edges of the history; with an unhealthy threshold of 2 or more each Failed is
      followed by one Degraded, below that there is none. */
  lemma {:induction false} StreamIsEdges(name: string, hist: seq<Outcome>, threshold: int)
    ensures Kinds(EventsAfter(name, hist, threshold)) ==
            if threshold >= 2 then WithDegraded(Edges(hist)) else Edges(hist)
  {
    if hist != [] {
      StreamIsEdges(name, hist[..|hist| - 1], threshold);
      KindsNext(name, hist, threshold);
      EdgesNext(hist);
    }
  }

  /** The first edge is Passed or Failed as the first result says; afterwards Recovered and Failed alternate,
      so Passed comes first or not at all; and the last edge tells whether the target is healthy. */
  lemma {:induction false} EdgesAlternate(hist: seq<Outcome>)
    requires hist != []
    ensures var e := Edges(hist);
            && e != [] && e[0] == (if hist[0].healthy then Passed else Failed)
            && (forall i | 0 < i < |e| :: e[i] == if e[i - 1] == Failed then Recovered else Failed)
            && (e[|e| - 1] != Failed <==> hist[|hist| - 1].healthy)
            && (forall i | 0 <= i < |e| :: e[i] != Degraded)
  {
    if |hist| > 1 { EdgesAlternate(hist[..|hist| - 1]); }
  }

  /** What a subscriber that sees only event kinds believes. */
  function Replayed(kinds: seq<EventType>): Option<bool> {
    if kinds == [] then None
    else match kinds[|kinds| - 1]
      case Failed => Some(false)
      case Degraded => Replayed(kinds[..|kinds| - 1])
      case _ => Some(true)
  }

  lemma ReplayedSnoc(kinds: seq<EventType>, k: EventType)
    ensures Replayed(kinds + [k]) == if k == Degraded then Replayed(kinds) else Some(k != Failed)
  {
    assert (kinds + [k])[..|kinds|] == kinds;
  }

  lemma ReplayedWithDegraded(kinds: seq<EventType>, k: EventType)
    requires k != Degraded
    ensures Replayed(WithDegraded(kinds + [k])) == Some(k != Failed)
  {
    var w := WithDegraded(kinds);
    WithDegradedSnoc(kinds, k);
    ReplayedSnoc(w, k);
    if k == Failed {
      assert w + [Failed, Degraded] == (w + [Failed]) + [Degraded];
      ReplayedSnoc(w + [Failed], Degraded);
    }
  }

  /** Replaying the stream rebuilds the Healthy flag. */
  lemma StreamDeterminesHealth(name: string, hist: seq<Outcome>, threshold: int)
    requires hist != []
    ensures Replayed(Kinds(EventsAfter(name, hist, threshold))) == Some(StatusAfter(hist).value.check.healthy)
  {
    StreamIsEdges(name, hist, threshold);
    EdgesAlternate(hist);
    ExactlyOneCounter(hist);
    var e := Edges(hist);
    var init, k := e[..|e| - 1], e[|e| - 1];
    assert e == init + [k];
    ReplayedWithDegraded(init, k);
    ReplayedSnoc(init, k);
  }

  // ----- What the events carry -----

  /** The event stems from check `i`: it carries the status after that check and the one before it, which for a first
      check is the zero status, and its kind is bad news exactly if the check failed. */
  predicate StemsFrom(e: HealthEvent, name: string, hist: seq<Outcome>, i: nat) {
    && i < |hist| && e.target == name
    && Some(e.newStatus) == StatusAfter(hist[..i + 1]) && e.newStatus.check == hist[i]
    && (if i == 0 then e.oldStatus == HealthStatus(Outcome(false, 0, 0, 0, None), 0, 0)
        else Some(e.oldStatus) == StatusAfter(hist[..i]))
    && (e.kind == Failed || e.kind == Degraded <==> !hist[i].healthy)
  }

  lemma {:induction false} CheckEvents(name: string, hist: seq<Outcome>, threshold: int, e: HealthEvent)
    requires hist != []
    requires e in EventsOf(name, StatusAfter(hist[..|hist| - 1]), StatusAfter(hist).value, threshold)
    ensures StemsFrom(e, name, hist, |hist| - 1)
  {
    var n := |hist| - 1;
    assert hist[..n + 1] == hist;
    ExactlyOneCounter(hist);
    if n > 0 { ExactlyOneCounter(hist[..n]); }
  }

  lemma StemsFromLonger(e: HealthEvent, name: string, hist: seq<Outcome>, m: nat, i: nat)
    requires m <= |hist| && StemsFrom(e, name, hist[..m], i)
    ensures StemsFrom(e, name, hist, i)
  {
    assert hist[..m][..i + 1] == hist[..i + 1] && hist[..m][..i] == hist[..i];
  }

  /** Each event stems from the check named with it, and they come in the order of those checks. */
  predicate Stem(es: seq<HealthEvent>, name: string, hist: seq<Outcome>, checks: seq<nat>) {
    && |checks| == |es|
    && (forall j | 0 <= j < |es| :: StemsFrom(es[j], name, hist, checks[j]))
    && (forall j, k | 0 <= j < k < |es| :: checks[j] <= checks[k])
  }

  lemma StemMore(name: string, hist: seq<Outcome>, threshold: int, before: seq<HealthEvent>, added: seq<HealthEvent>,
                 checks: seq<nat>) returns (all: seq<nat>)
    requires hist != [] && Stem(before, name, hist[..|hist| - 1], checks)
    requires added == EventsOf(name, StatusAfter(hist[..|hist| - 1]), StatusAfter(hist).value, threshold)
    ensures Stem(before + added, name, hist, all)
  {
    var n := |hist| - 1;
    all := checks + seq(|added|, _ => n);
    forall j | 0 <= j < |all| ensures StemsFrom((before + added)[j], name, hist, all[j]) {
      if j < |before| { StemsFromLonger(before[j], name, hist, n, checks[j]); }
      else { CheckEvents(name, hist, threshold, added[j - |before|]); }
    }
    assert forall j | 0 <= j < |before| :: StemsFrom(before[j], name, hist[..n], checks[j]);
  }

  /** Every event of the stream stems from a check, in the order of the checks. */
  lemma {:induction false} EventsStemFromChecks(name: string, hist: seq<Outcome>, threshold: int)
    returns (checks: seq<nat>)
    ensures Stem(EventsAfter(name, hist, threshold), name, hist, checks)
  {
    if hist == [] {
      checks := [];
    } else {
      var n := |hist| - 1;
      checks := EventsStemFromChecks(name, hist[..n], threshold);
      checks := StemMore(name, hist, threshold, EventsAfter(name, hist[..n], threshold),
                         EventsOf(name, StatusAfter(hist[..n]), StatusAfter(hist).value, threshold), checks);
    }
  }

  /** The latest event carries a status on the side that the target is on now. */
  lemma {:induction false} LatestEventAgrees(name: string, hist: seq<Outcome>, threshold: int)
    requires hist != []
    ensures var es := EventsAfter(name, hist, threshold);
            es != [] && es[|es| - 1].newStatus.check.healthy == hist[|hist| - 1].healthy
  {
    var n := |hist| - 1;
    var added := EventsOf(name, StatusAfter(hist[..n]), StatusAfter(hist).value, threshold);
    ExactlyOneCounter(hist);
    if n > 0 {
      ExactlyOneCounter(hist[..n]);
      LatestEventAgrees(name, hist[..n], threshold);
    }
    if added != [] { CheckEvents(name, hist, threshold, added[|added| - 1]); }
  }

  // ----- A bounded channel that drops what does not fit -----

  /** A select with a default case: the event is sent if there is room. */
  function Sent<T>(queue: seq<T>, capacity: nat, x: T): seq<T> {
    if |queue| < capacity then queue + [x] else queue
  }

  /** The channel after `times` sends of the same event, one per subscription of the channel. */
  function SentTimes<T>(queue: seq<T>, capacity: nat, x: T, times: nat): seq<T>
    decreases times
  {
    if times == 0 then queue else Sent(SentTimes(queue, capacity, x, times - 1), capacity, x)
  }

  function SentAll<T>(queue: seq<T>, capacity: nat, xs: seq<T>, times: nat): seq<T>
    decreases |xs|
  {
    if xs == [] then queue
    else SentTimes(SentAll(queue, capacity, xs[..|xs| - 1], times), capacity, xs[|xs| - 1], times)
  }

  /** The stream with each event `times` times over. */
  function Repeated<T>(xs: seq<T>, times: nat): seq<T>
    decreases |xs|
  {
    if xs == [] then [] else Repeated(xs[..|xs| - 1], times) + seq(times, _ => xs[|xs| - 1])
  }

  /** What a channel holds when it has been offered `xs`: all that fits, in order, and nothing more. */
  function Fitted<T>(queue: seq<T>, capacity: nat, xs: seq<T>): seq<T>
    requires |queue| <= capacity
  {
    queue + if |xs| <= capacity - |queue| then xs else xs[..capacity - |queue|]
  }

  lemma FittedNext<T>(queue: seq<T>, capacity: nat, xs: seq<T>, x: T)
    requires |queue| <= capacity
    ensures Fitted(queue, capacity, xs + [x]) == Sent(Fitted(queue, capacity, xs), capacity, x)
  {
    var room := capacity - |queue|;
    if |xs| < room {
      assert queue + (xs + [x]) == queue + xs + [x];
    } else {
      assert (xs + [x])[..room] == xs[..room];
    }
  }

  lemma {:induction false} FittedTimes<T>(queue: seq<T>, capacity: nat, xs: seq<T>, x: T, times: nat)
    requires |queue| <= capacity
    ensures SentTimes(Fitted(queue, capacity, xs), capacity, x, times) == Fitted(queue, capacity, xs + seq(times, _ => x))
  {
    if times == 0 {
      assert xs + seq(0, _ => x) == xs;
    } else {
      var fewer := xs + seq(times - 1, _ => x);
      FittedTimes(queue, capacity, xs, x, times - 1);
      FittedNext(queue, capacity, fewer, x);
      assert fewer + [x] == xs + seq(times, _ => x);
    }
  }

  /** A channel gets a prefix of the stream with each event as often as the channel is subscribed: all that fits, in
      order, and never more. */
  lemma {:induction false} ChannelGetsPrefix<T>(queue: seq<T>, capacity: nat, xs: seq<T>, times: nat)
    requires |queue| <= capacity
    ensures SentAll(queue, capacity, xs, times) == Fitted(queue, capacity, Repeated(xs, times))
  {
    if xs != [] {
      var init := xs[..|xs| - 1];
      ChannelGetsPrefix(queue, capacity, init, times);
      FittedTimes(queue, capacity, Repeated(init, times), xs[|xs| - 1], times);
    }
  }

  /** So a channel subscribed once gets a prefix of the stream itself. */
  lemma {:induction false} RepeatedOnce<T>(xs: seq<T>)
    ensures Repeated(xs, 1) == xs
  {
    if xs != [] { RepeatedOnce(xs[..|xs| - 1]); }
  }
}
