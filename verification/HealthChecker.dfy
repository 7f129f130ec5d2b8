/** The health checker as the program has it: registered targets, their latest status, and the channels that
    are told of changes. Results of checks are an input. Sweeps do not overlap other calls here; in
    HealthThreads.dfy they do. */
module HealthCheckers {
  import opened HealthHistory
  import opened Wrappers

  datatype Target = Target(name: string)

  /** A Go channel seen from the sending side. It has taken so many events so far and can take up to `limit`: the
      size of its buffer and one for every receive that has been made or is waiting. */
  class Channel {
    var taken: seq<HealthEvent>
    var limit: nat
    var closed: bool

    constructor (capacity: nat)
      ensures taken == [] && limit == capacity && !closed
    {
      taken, limit, closed := [], capacity, false;
    }

    /** A send in a select with a default case: a closed channel panics, a full one is passed over. */
    method TrySend(event: HealthEvent) returns (panicked: bool)
      modifies this`taken
      ensures panicked == closed
      ensures taken == if closed then old(taken) else Sent(old(taken), limit, event)
    {
      if closed { return true; }
      if |taken| < limit {
        taken := taken + [event];
      }
      return false;
    }
  }

  /** How often a channel is subscribed. */
  ghost function Times(subscribers: seq<Channel>, ch: Channel): nat {
    multiset(subscribers)[ch]
  }

  lemma TimesNext(subscribers: seq<Channel>, i: nat, ch: Channel)
    requires i < |subscribers|
    ensures Times(subscribers[..i + 1], ch) == Times(subscribers[..i], ch) + if subscribers[i] == ch then 1 else 0
  {
    assert subscribers[..i + 1] == subscribers[..i] + [subscribers[i]];
  }

  function EventsFor(events: seq<HealthEvent>, name: string): seq<HealthEvent> {
    if events == [] then []
    else EventsFor(events[..|events| - 1], name)
         + if events[|events| - 1].target == name then [events[|events| - 1]] else []
  }

  lemma {:induction false} EventsForConcat(a: seq<HealthEvent>, b: seq<HealthEvent>, name: string)
    ensures EventsFor(a + b, name) == EventsFor(a, name) + EventsFor(b, name)
  {
    if b == [] {
      assert a + b == a;
    } else {
      var n := |b| - 1;
      assert (a + b)[..|a + b| - 1] == a + b[..n];
      EventsForConcat(a, b[..n], name);
    }
  }

  lemma {:induction false} EventsForOne(events: seq<HealthEvent>, name: string, other: string)
    requires forall e | e in events :: e.target == name
    ensures EventsFor(events, other) == if other == name then events else []
  {
    if events != [] { EventsForOne(events[..|events| - 1], name, other); }
  }

  lemma HistoryGrows(name: string, hist: seq<Outcome>, o: Outcome, threshold: int)
    ensures StatusAfter(hist + [o]) == Some(Update(StatusAfter(hist), o))
    ensures EventsAfter(name, hist + [o], threshold) ==
            EventsAfter(name, hist, threshold)
            + EventsOf(name, StatusAfter(hist), Update(StatusAfter(hist), o), threshold)
  {
    assert (hist + [o])[..|hist|] == hist;
  }

  lemma {:induction false} SentAllConcat<T>(queue: seq<T>, capacity: nat, xs: seq<T>, ys: seq<T>, times: nat)
    ensures SentAll(queue, capacity, xs + ys, times) ==
            SentAll(SentAll(queue, capacity, xs, times), capacity, ys, times)
  {
    if ys == [] {
      assert xs + ys == xs;
    } else {
      var n := |ys| - 1;
      assert (xs + ys)[..|xs + ys| - 1] == xs + ys[..n];
      SentAllConcat(queue, capacity, xs, ys[..n], times);
    }
  }

  lemma SentAllOne<T>(queue: seq<T>, capacity: nat, x: T, times: nat)
    ensures SentAll(queue, capacity, [x], times) == SentTimes(queue, capacity, x, times)
    ensures SentAll(queue, capacity, [], times) == queue
  {
    assert [x][..0] == [];
  }

  /** The lasting state of a checker, with the record of what led to it: per target its check results since it
      was last unregistered, and the events of before that. */
  datatype Ledger = Ledger(
    status: map<string, HealthStatus>, published: seq<HealthEvent>,
    history: map<string, seq<Outcome>>, past: map<string, seq<HealthEvent>>)
  {
    function Previous(name: string): Option<HealthStatus> {
      if name in status then Some(status[name]) else None
    }

    function History(name: string): seq<Outcome> {
      if name in history then history[name] else []
    }

    function Past(name: string): seq<HealthEvent> {
      if name in past then past[name] else []
    }

    predicate ConsistentAt(name: string, threshold: int) {
      && Previous(name) == StatusAfter(History(name))
      && EventsFor(published, name) == Past(name) + EventsAfter(name, History(name), threshold)
    }

    /** Status and events are what the history of results makes them. */
    ghost predicate Consistent(threshold: int) {
      forall name :: ConsistentAt(name, threshold)
    }

    function Extended(name: string, outcome: Outcome, next: HealthStatus, sent: seq<HealthEvent>): Ledger {
      Ledger(status[name := next], published + sent, history[name := History(name) + [outcome]], past)
    }

    function Checked(name: string, outcome: Outcome, threshold: int): Ledger {
      var next := Update(Previous(name), outcome);
      Extended(name, outcome, next, EventsOf(name, Previous(name), next, threshold))
    }

    /** The check gives rise to an event. */
    predicate Tells(name: string, outcome: Outcome, threshold: int) {
      EventsOf(name, Previous(name), Update(Previous(name), outcome), threshold) != []
    }

    function Unregistered(name: string): Ledger {
      Ledger(status - {name}, published, history - {name}, past[name := EventsFor(published, name)])
    }
  }

  lemma EventsStartWithEdge(name: string, previous: Option<HealthStatus>, next: HealthStatus, threshold: int)
    ensures EventsOf(name, previous, next, 0) <= EventsOf(name, previous, next, threshold)
  {
  }

  lemma Assoc<T>(a: seq<T>, b: seq<T>, c: seq<T>)
    ensures a + b + c == a + (b + c)
  {
  }

  lemma EventsGrow(published: seq<HealthEvent>, sent: seq<HealthEvent>, name: string, n: string,
                   past: seq<HealthEvent>, before: seq<HealthEvent>)
    requires forall e | e in sent :: e.target == name
    requires EventsFor(published, n) == past + before
    ensures EventsFor(published + sent, n) == past + (if n == name then before + sent else before)
  {
    EventsForConcat(published, sent, n);
    EventsForOne(sent, name, n);
    Assoc(past, before, sent);
  }

  lemma ExtendedAt(l: Ledger, name: string, outcome: Outcome, next: HealthStatus, sent: seq<HealthEvent>,
                   threshold: int, n: string)
    requires l.ConsistentAt(n, threshold)
    requires StatusAfter(l.History(name) + [outcome]) == Some(next)
    requires EventsAfter(name, l.History(name) + [outcome], threshold) == EventsAfter(name, l.History(name), threshold) + sent
    requires forall e | e in sent :: e.target == name
    ensures l.Extended(name, outcome, next, sent).ConsistentAt(n, threshold)
  {
    EventsGrow(l.published, sent, name, n, l.Past(n), EventsAfter(n, l.History(n), threshold));
  }

  lemma CheckedConsistent(l: Ledger, name: string, outcome: Outcome, threshold: int)
    requires l.Consistent(threshold)
    ensures l.Checked(name, outcome, threshold).Consistent(threshold)
  {
    assert l.ConsistentAt(name, threshold);
    var next := Update(l.Previous(name), outcome);
    var sent := EventsOf(name, l.Previous(name), next, threshold);
    HistoryGrows(name, l.History(name), outcome, threshold);
    forall n ensures l.Extended(name, outcome, next, sent).ConsistentAt(n, threshold) {
      assert l.ConsistentAt(n, threshold);
      ExtendedAt(l, name, outcome, next, sent, threshold, n);
    }
  }

  lemma UnregisteredConsistent(l: Ledger, name: string, threshold: int)
    requires l.Consistent(threshold)
    ensures l.Unregistered(name).Consistent(threshold)
  {
    forall n ensures l.Unregistered(name).ConsistentAt(n, threshold) {
      assert l.ConsistentAt(n, threshold);
    }
  }

  /** The history of each name that is no longer left is one result longer; no other has changed. */
  ghost predicate Swept(before: Ledger, after: Ledger, names: set<string>, left: set<string>, outcomes: map<string, Outcome>)
    requires names <= outcomes.Keys
  {
    && after.past == before.past
    && forall n :: after.History(n) ==
         if n in names && n !in left then before.History(n) + [outcomes[n]] else before.History(n)
  }

  lemma SweptNext(start: Ledger, before: Ledger, after: Ledger, names: set<string>, left: set<string>,
                  outcomes: map<string, Outcome>, name: string)
    requires names <= outcomes.Keys && name in names && name in left && Swept(start, before, names, left, outcomes)
    requires after.history == before.history[name := before.History(name) + [outcomes[name]]] && after.past == before.past
    ensures Swept(start, after, names, left - {name}, outcomes)
  {
  }

  /** What is left to be checked is as it was, and with a closed channel there has been nothing to tell so far. */
  ghost predicate Untroubled(before: Ledger, after: Ledger, names: set<string>, left: set<string>,
                             outcomes: map<string, Outcome>, threshold: int, closed: bool)
    requires names <= outcomes.Keys
  {
    && (forall n | n in left :: after.Previous(n) == before.Previous(n))
    && (closed ==> forall n | n in names && n !in left :: !before.Tells(n, outcomes[n], threshold))
  }

  lemma UntroubledNext(start: Ledger, before: Ledger, after: Ledger, names: set<string>, left: set<string>,
                       outcomes: map<string, Outcome>, threshold: int, closed: bool, name: string)
    requires names <= outcomes.Keys && name in names
    requires Untroubled(start, before, names, left, outcomes, threshold, closed)
    requires name in after.status && after.status == before.status[name := after.status[name]]
    requires closed ==> !start.Tells(name, outcomes[name], threshold)
    ensures Untroubled(start, after, names, left - {name}, outcomes, threshold, closed)
  {
  }

  class HealthChecker {
    const unhealthyThreshold: int
    var targets: map<string, Target>
    var status: map<string, HealthStatus>
    var subscribers: seq<Channel>

    /** Everything handed to publishEvent, in order. */
    ghost var published: seq<HealthEvent>
    ghost var history: map<string, seq<Outcome>>
    ghost var past: map<string, seq<HealthEvent>>

    ghost function Book(): Ledger
      reads this
    {
      Ledger(status, published, history, past)
    }

    /** The check results of a target since it was last unregistered. */
    ghost function History(name: string): seq<Outcome>
      reads this
    {
      Book().History(name)
    }

    ghost predicate Valid()
      reads this
    {
      "" !in targets && Book().Consistent(unhealthyThreshold)
    }

    constructor (unhealthyThreshold: int)
      ensures Valid() && this.unhealthyThreshold == unhealthyThreshold
      ensures targets == map[] && status == map[] && subscribers == [] && published == []
    {
      this.unhealthyThreshold := unhealthyThreshold;
      targets, status, subscribers := map[], map[], [];
      published, history, past := [], map[], map[];
    }

    method Subscribe(ch: Channel?) returns (ok: bool)
      requires Valid()
      modifies this`subscribers
      ensures Valid() && ok == (ch != null)
      ensures subscribers == if ch == null then old(subscribers) else old(subscribers) + [ch]
    {
      if ch == null { return false; }
      subscribers := subscribers + [ch];
      return true;
    }

    /** Removes the first subscription of the channel. */
    method Unsubscribe(ch: Channel?) returns (ok: bool)
      requires Valid()
      modifies this`subscribers
      ensures Valid() && (ok <==> ch != null && ch in old(subscribers))
      ensures !ok ==> subscribers == old(subscribers)
      ensures ok ==> exists i :: 0 <= i < |old(subscribers)| && old(subscribers)[i] == ch
                       && ch !in old(subscribers)[..i]
                       && subscribers == old(subscribers)[..i] + old(subscribers)[i + 1..]
    {
      if ch == null { return false; }
      for i := 0 to |subscribers|
        invariant subscribers == old(subscribers) && ch !in subscribers[..i]
      {
        if subscribers[i] == ch {
          subscribers := subscribers[..i] + subscribers[i + 1..];
          return true;
        }
      }
      return false;
    }

    /** Registering a known name again replaces the target and keeps its status and history. */
    method RegisterTarget(target: Option<Target>) returns (ok: bool)
      requires Valid()
      modifies this`targets
      ensures Valid() && (ok <==> target.Some? && target.value.name != "")
      ensures targets == if ok then old(targets)[target.value.name := target.value] else old(targets)
    {
      if target.None? { return false; }
      var name := target.value.name;
      if name == "" { return false; }
      targets := targets[name := target.value];
      return true;
    }

    method UnregisterTarget(name: string) returns (ok: bool)
      requires Valid()
      modifies this`targets, this`status, this`history, this`past
      ensures Valid() && ok == (name != "")
      ensures ok ==> targets == old(targets) - {name} && Book() == old(Book()).Unregistered(name)
      ensures ok ==> status == old(status) - {name} && History(name) == []
      ensures forall n | n != name :: History(n) == old(History(n))
      ensures !ok ==> targets == old(targets) && Book() == old(Book())
    {
      if name == "" { return false; }
      UnregisteredConsistent(Book(), name, unhealthyThreshold);
      targets := targets - {name};
      status := status - {name};
      past := past[name := EventsFor(published, name)];
      history := history - {name};
      return true;
    }

    method GetTargetStatus(name: string) returns (r: Option<HealthStatus>)
      requires Valid()
      ensures r == StatusAfter(History(name))
    {
      assert Book().ConsistentAt(name, unhealthyThreshold);
      if name in status { return Some(status[name]); }
      return None;
    }

    method GetAllTargetStatus() returns (result: map<string, HealthStatus>)
      requires Valid()
      ensures result == status
      ensures forall name :: name in result <==> History(name) != []
      ensures forall name | name in result :: Some(result[name]) == StatusAfter(History(name))
    {
      forall name ensures (name in status <==> History(name) != [])
                          && (name in status ==> Some(status[name]) == StatusAfter(History(name)))
      {
        assert Book().ConsistentAt(name, unhealthyThreshold);
      }
      result := status;
    }

    ghost function Queues(): map<Channel, seq<HealthEvent>>
      reads this`subscribers, subscribers
    {
      map ch | ch in subscribers :: ch.taken
    }

    /** The event has been offered to the first `n` subscriptions, on top of `queues`. */
    ghost predicate OfferedTo(n: nat, queues: map<Channel, seq<HealthEvent>>, event: HealthEvent)
      requires n <= |subscribers|
      reads this`subscribers, subscribers
    {
      forall ch | ch in subscribers ::
        ch in queues && ch.taken == SentTimes(queues[ch], ch.limit, event, Times(subscribers[..n], ch))
    }

    method OfferNext(i: nat, event: HealthEvent, ghost queues: map<Channel, seq<HealthEvent>>) returns (panicked: bool)
      requires i < |subscribers| && OfferedTo(i, queues, event)
      modifies subscribers`taken
      ensures panicked == subscribers[i].closed && OfferedTo(if panicked then i else i + 1, queues, event)
    {
      panicked := subscribers[i].TrySend(event);
      if panicked { return; }
      forall ch | ch in subscribers
        ensures ch in queues && ch.taken == SentTimes(queues[ch], ch.limit, event, Times(subscribers[..i + 1], ch))
      {
        TimesNext(subscribers, i, ch);
      }
    }

    /** The subscriptions before the first one of a closed channel: all of them, if none is closed. */
    ghost function Open(): (n: nat)
      reads this`subscribers, subscribers`closed
      ensures n <= |subscribers| && (n < |subscribers| ==> subscribers[n].closed)
      ensures forall k | 0 <= k < n :: !subscribers[k].closed
    {
      OpenFrom(0)
    }

    ghost function OpenFrom(i: nat): (n: nat)
      requires i <= |subscribers|
      reads this`subscribers, subscribers`closed
      ensures i <= n <= |subscribers| && (n < |subscribers| ==> subscribers[n].closed)
      ensures forall k | i <= k < n :: !subscribers[k].closed
      decreases |subscribers| - i
    {
      if i == |subscribers| || subscribers[i].closed then i else OpenFrom(i + 1)
    }

    /** Every subscriber has taken its channel out before closing it. */
    ghost predicate NoneClosed()
      reads this`subscribers, subscribers`closed
    {
      forall ch | ch in subscribers :: !ch.closed
    }

    /** What a channel has taken after some events were offered to every subscription. */
    ghost function Offered(ch: Channel, queue: seq<HealthEvent>, sent: seq<HealthEvent>): seq<HealthEvent>
      reads this`subscribers, ch`limit
    {
      SentAll(queue, ch.limit, sent, Times(subscribers, ch))
    }

    /** Offers the event to every subscription; a channel without room misses it. At the first subscription of a
        closed channel it panics, and the later subscriptions are offered nothing. */
    method PublishEvent(event: HealthEvent) returns (panicked: bool)
      modifies this`published, subscribers`taken
      ensures published == old(published) + [event]
      ensures panicked == !NoneClosed()
      ensures OfferedTo(Open(), old(Queues()), event)
      ensures !panicked ==> forall ch | ch in subscribers :: ch.taken == Offered(ch, old(ch.taken), [event])
    {
      published := published + [event];
      ghost var queues, open := Queues(), Open();
      for i := 0 to |subscribers|
        invariant published == old(published) + [event]
        invariant OfferedTo(i, queues, event)
        invariant i <= open == Open()
      {
        panicked := OfferNext(i, event, queues);
        if panicked {
          assert i == open;
          return;
        }
      }
      assert subscribers[..|subscribers|] == subscribers;
      forall ch | ch in subscribers ensures ch.taken == Offered(ch, queues[ch], [event]) {
        SentAllOne(queues[ch], ch.limit, event, Times(subscribers, ch));
      }
      return false;
    }

    /** The edge event, if the target changed sides or is new. */
    method PublishEdge(name: string, previous: Option<HealthStatus>, newStatus: HealthStatus)
      returns (panicked: bool, ghost sent: seq<HealthEvent>)
      modifies this`published, subscribers`taken
      ensures sent == EventsOf(name, previous, newStatus, 0) && published == old(published) + sent
      ensures panicked <==> sent != [] && !NoneClosed()
      ensures !panicked ==> forall ch | ch in subscribers :: ch.taken == Offered(ch, old(ch.taken), sent)
    {
      panicked, sent := false, [];
      if previous.None? || previous.value.check.healthy != newStatus.check.healthy {
        var kind := Passed;
        if !newStatus.check.healthy {
          kind := Failed;
        } else if previous.Some? && !previous.value.check.healthy {
          kind := Recovered;
        }
        var event := HealthEvent(name, OrZero(previous), newStatus, kind);
        panicked := PublishEvent(event);
        sent := [event];
      }
    }

    /** The event for a first failure short of the unhealthy threshold. */
    method PublishDegraded(name: string, previous: Option<HealthStatus>, newStatus: HealthStatus)
      returns (panicked: bool, ghost sent: seq<HealthEvent>)
      modifies this`published, subscribers`taken
      ensures EventsOf(name, previous, newStatus, 0) + sent == EventsOf(name, previous, newStatus, unhealthyThreshold)
      ensures published == old(published) + sent
      ensures panicked <==> sent != [] && !NoneClosed()
      ensures !panicked ==> forall ch | ch in subscribers :: ch.taken == Offered(ch, old(ch.taken), sent)
    {
      panicked, sent := false, [];
      if newStatus.consecutiveFailures > 0 && newStatus.consecutiveFailures < unhealthyThreshold
         && (previous.None? || previous.value.consecutiveFailures == 0)
      {
        var event := HealthEvent(name, OrZero(previous), newStatus, Degraded);
        panicked := PublishEvent(event);
        sent := [event];
      }
    }

    /** The counters after one more check. */
    method Counters(previous: Option<HealthStatus>, outcome: Outcome) returns (newStatus: HealthStatus)
      ensures newStatus == Update(previous, outcome)
    {
      var failures, successes;
      if previous.Some? {
        if outcome.healthy {
          successes := if previous.value.check.healthy then previous.value.consecutiveSuccesses + 1 else 1;
          failures := 0;
        } else {
          failures := if !previous.value.check.healthy then previous.value.consecutiveFailures + 1 else 1;
          successes := 0;
        }
      } else if outcome.healthy {
        successes, failures := 1, 0;
      } else {
        successes, failures := 0, 1;
      }
      newStatus := HealthStatus(outcome, failures, successes);
    }

    /** Everything published for one check, in order. */
    method PublishChanges(name: string, previous: Option<HealthStatus>, newStatus: HealthStatus)
      returns (panicked: bool, ghost sent: seq<HealthEvent>)
      modifies this`published, subscribers`taken
      ensures panicked <==> EventsOf(name, previous, newStatus, unhealthyThreshold) != [] && !NoneClosed()
      ensures published == old(published) + sent && sent <= EventsOf(name, previous, newStatus, unhealthyThreshold)
      ensures !panicked ==> sent == EventsOf(name, previous, newStatus, unhealthyThreshold)
      ensures !panicked ==> forall ch | ch in subscribers :: ch.taken == Offered(ch, old(ch.taken), sent)
    {
      ghost var edge, degraded;
      panicked, edge := PublishEdge(name, previous, newStatus);
      sent := edge;
      if panicked {
        EventsStartWithEdge(name, previous, newStatus, unhealthyThreshold);
        return;
      }
      panicked, degraded := PublishDegraded(name, previous, newStatus);
      sent := edge + degraded;
      Assoc(old(published), edge, degraded);
      if panicked { return; }
      forall ch | ch in subscribers ensures ch.taken == Offered(ch, old(ch.taken), sent) {
        SentAllConcat(old(ch.taken), ch.limit, edge, degraded, Times(subscribers, ch));
      }
    }

    /** One turn of the loop in checkAllTargets: the status is stored first, so a panic comes after that. */
    method CheckTarget(name: string, outcome: Outcome) returns (panicked: bool, ghost sent: seq<HealthEvent>)
      requires Valid()
      modifies this`status, this`published, this`history, subscribers`taken
      ensures panicked <==> old(Book()).Tells(name, outcome, unhealthyThreshold) && !NoneClosed()
      ensures status == old(status)[name := Update(old(Book()).Previous(name), outcome)]
      ensures published == old(published) + sent
      ensures !panicked ==> Valid() && Book() == old(Book()).Checked(name, outcome, unhealthyThreshold)
      ensures !panicked ==> Delivered(old(Queues()), sent)
    {
      ghost var book := Book();
      CheckedConsistent(book, name, outcome, unhealthyThreshold);
      var previous := if name in status then Some(status[name]) else None;
      var newStatus := Counters(previous, outcome);
      status := status[name := newStatus];
      history := history[name := History(name) + [outcome]];
      panicked, sent := PublishChanges(name, previous, newStatus);
      assert !panicked ==> Book() == book.Checked(name, outcome, unhealthyThreshold);
    }

    /** The channels hold what follows from offering `sent` on top of `queues`. */
    ghost predicate Delivered(queues: map<Channel, seq<HealthEvent>>, sent: seq<HealthEvent>)
      reads this`subscribers, subscribers
    {
      forall ch | ch in subscribers :: ch in queues && ch.taken == Offered(ch, queues[ch], sent)
    }

    lemma DeliveredMore(start: map<Channel, seq<HealthEvent>>, sent: seq<HealthEvent>,
                        queues: map<Channel, seq<HealthEvent>>, added: seq<HealthEvent>)
      requires forall ch | ch in subscribers :: ch in start && ch in queues && queues[ch] == Offered(ch, start[ch], sent)
      requires Delivered(queues, added)
      ensures Delivered(start, sent + added)
    {
      forall ch | ch in subscribers ensures ch.taken == Offered(ch, start[ch], sent + added) {
        SentAllConcat(start[ch], ch.limit, sent, added, Times(subscribers, ch));
      }
    }

    /** Where a sweep over `names` stands when `left` are still to be checked. */
    ghost predicate MidSweep(start: Ledger, queues: map<Channel, seq<HealthEvent>>, names: set<string>,
                             left: set<string>, outcomes: map<string, Outcome>, sent: seq<HealthEvent>)
      requires names <= outcomes.Keys
      reads this, subscribers
    {
      && Valid() && published == start.published + sent && Delivered(queues, sent)
      && Swept(start, Book(), names, left, outcomes)
      && Untroubled(start, Book(), names, left, outcomes, unhealthyThreshold, !NoneClosed())
    }

    method CheckNext(name: string, outcomes: map<string, Outcome>, ghost start: Ledger,
                     ghost queues: map<Channel, seq<HealthEvent>>, ghost names: set<string>,
                     ghost left: set<string>, ghost sent: seq<HealthEvent>)
      returns (panicked: bool, ghost more: seq<HealthEvent>)
      requires names <= outcomes.Keys && name in names && name in left
      requires MidSweep(start, queues, names, left, outcomes, sent)
      modifies this`status, this`published, this`history, subscribers`taken
      ensures panicked <==> start.Tells(name, outcomes[name], unhealthyThreshold) && !NoneClosed()
      ensures !panicked ==> MidSweep(start, queues, names, left - {name}, outcomes, more)
    {
      ghost var book, held := Book(), Queues();
      ghost var added;
      panicked, added := CheckTarget(name, outcomes[name]);
      more := sent + added;
      if panicked { return; }
      DeliveredMore(queues, sent, held, added);
      SweptNext(start, book, Book(), names, left, outcomes, name);
      UntroubledNext(start, book, Book(), names, left, outcomes, unhealthyThreshold, !NoneClosed(), name);
      Assoc(start.published, sent, added);
    }

    /** One sweep: every registered target is checked once, in the order the map happens to give. It panics exactly
        when there is something to tell and a subscriber has closed its channel. */
    method CheckAllTargets(outcomes: map<string, Outcome>) returns (panicked: bool, ghost sent: seq<HealthEvent>)
      requires Valid() && targets.Keys <= outcomes.Keys
      modifies this`status, this`published, this`history, subscribers`taken
      ensures panicked <==>
                !NoneClosed() && exists n :: n in targets && old(Book()).Tells(n, outcomes[n], unhealthyThreshold)
      ensures !panicked ==> Valid() && published == old(published) + sent
      ensures !panicked ==> Delivered(old(Queues()), sent)
      ensures !panicked ==> Swept(old(Book()), Book(), targets.Keys, {}, outcomes)
    {
      ghost var start, queues := Book(), Queues();
      var copy := targets;
      var left := copy.Keys;
      panicked, sent := false, [];
      while left != {}
        invariant left <= copy.Keys && MidSweep(start, queues, copy.Keys, left, outcomes, sent)
        decreases |left|
      {
        var name :| name in left;
        panicked, sent := CheckNext(name, outcomes, start, queues, copy.Keys, left, sent);
        if panicked { return; }
        left := left - {name};
      }
      return false, sent;
    }
  }

  // ----- What any valid checker shows, whatever was called on it before -----

  /** The counters a checker stores are the lengths of the trailing run of the target's results. */
  lemma StoredCounters(hc: HealthChecker, name: string, k: nat, healthy: bool)
    requires hc.Valid() && TrailingRun(hc.History(name), k, healthy)
    ensures name in hc.status && hc.status[name].check.healthy == healthy
    ensures hc.status[name].consecutiveSuccesses == if healthy then k else 0
    ensures hc.status[name].consecutiveFailures == if healthy then 0 else k
  {
    assert hc.Book().ConsistentAt(name, hc.unhealthyThreshold);
    CountersAreTrailingRuns(hc.History(name), k, healthy);
  }

  /** The events published for a target since it was last unregistered are the edges of its results, and
      replaying them rebuilds its Healthy flag. */
  lemma PublishedStream(hc: HealthChecker, name: string)
    requires hc.Valid() && hc.History(name) != []
    ensures var past, all := hc.Book().Past(name), EventsFor(hc.published, name);
            && past <= all && name in hc.status
            && Kinds(all[|past|..]) == (if hc.unhealthyThreshold >= 2 then WithDegraded(Edges(hc.History(name)))
                                        else Edges(hc.History(name)))
            && Replayed(Kinds(all[|past|..])) == Some(hc.status[name].check.healthy)
            && all[|past|..] != [] && all[|all| - 1].newStatus.check.healthy == hc.status[name].check.healthy
  {
    assert hc.Book().ConsistentAt(name, hc.unhealthyThreshold);
    var past, es := hc.Book().Past(name), EventsAfter(name, hc.History(name), hc.unhealthyThreshold);
    assert (past + es)[|past|..] == es;
    StreamIsEdges(name, hc.History(name), hc.unhealthyThreshold);
    StreamDeterminesHealth(name, hc.History(name), hc.unhealthyThreshold);
    LatestEventAgrees(name, hc.History(name), hc.unhealthyThreshold);
    ExactlyOneCounter(hc.History(name));
  }

  /** And each of them stems from a check of the target since then, in order: what it carries as its new status is the
      status after that check, as its old status the one before. */
  lemma PublishedStatuses(hc: HealthChecker, name: string) returns (checks: seq<nat>)
    requires hc.Valid()
    ensures var past, all := hc.Book().Past(name), EventsFor(hc.published, name);
            past <= all && Stem(all[|past|..], name, hc.History(name), checks)
  {
    assert hc.Book().ConsistentAt(name, hc.unhealthyThreshold);
    var past, es := hc.Book().Past(name), EventsAfter(name, hc.History(name), hc.unhealthyThreshold);
    assert (past + es)[|past|..] == es;
    checks := EventsStemFromChecks(name, hc.History(name), hc.unhealthyThreshold);
  }
}
