/** Every interleaving of the thread model is explained by an order in which the same calls run one at a
    time on the value-level breaker: same answers, same circuits, each call at an instant of its own. */
module CircuitLinearization {
  import opened CircuitMachine
  import opened CircuitThreads
  import CircuitTrace

  /** A call in the order: the clock it reads, the step it is placed at, and its answer. */
  datatype Entry = Entry(req: Request, call: nat, now: int, at: nat, answer: Answer)

  /** The circuit of a target after the calls of `lin`, one at a time. */
  function Replay(cfg: Config, lin: seq<Entry>, target: string): Circuit
    decreases |lin|
  {
    if lin == [] then FRESH
    else
      var e, c := lin[|lin| - 1], Replay(cfg, lin[..|lin| - 1], target);
      if e.req.target == target then Step(cfg, c, OpOf(e.req.kind, e.now)) else c
  }

  /** The operations of `lin` on one target. */
  function OpsOn(lin: seq<Entry>, target: string): seq<Op>
    decreases |lin|
  {
    if lin == [] then []
    else
      var e, ops := lin[|lin| - 1], OpsOn(lin[..|lin| - 1], target);
      if e.req.target == target then ops + [OpOf(e.req.kind, e.now)] else ops
  }

  /** So everything CircuitTrace says of runs holds of every concurrent history. */
  lemma {:induction false} ReplayIsRun(cfg: Config, lin: seq<Entry>, target: string)
    ensures Replay(cfg, lin, target) == Run(cfg, FRESH, OpsOn(lin, target))
  {
    if lin != [] {
      ReplayIsRun(cfg, lin[..|lin| - 1], target);
      var ops := OpsOn(lin[..|lin| - 1], target);
      var op := OpOf(lin[|lin| - 1].req.kind, lin[|lin| - 1].now);
      assert (ops + [op])[..|ops|] == ops;
    }
  }

  /** The answer is the one the call gets when it meets circuit `c` alone. */
  predicate Right(cfg: Config, c: Circuit, e: Entry) {
    match e.req.kind
    case AllowCall => e.answer == Verdict(Admits(cfg, c, e.now))
    case InfoCall => e.answer == Report(c)
    case _ => e.answer == Nothing
  }

  predicate Legal(cfg: Config, lin: seq<Entry>) {
    forall i | 0 <= i < |lin| :: Right(cfg, Replay(cfg, lin[..i], lin[i].req.target), lin[i])
  }

  predicate Ordered(lin: seq<Entry>) {
    forall i, j | 0 <= i < j < |lin| :: lin[i].at <= lin[j].at && lin[i].now <= lin[j].now && lin[i].call != lin[j].call
  }

  predicate Matches(e: Entry, d: Returned) {
    e.req == d.req && e.call == d.call && e.answer == d.answer && d.call <= e.at <= d.ret
  }

  predicate InFlight(pc: Pc, e: Entry) {
    !pc.Idle? && pc.call == e.call && pc.req == e.req
  }

  /** The entry is a call that was made: one that has returned, or one still in flight. */
  predicate Accounted(s: System, e: Entry) {
    || (exists d | d in s.log :: Matches(e, d))
    || (exists t | t in s.threads :: InFlight(s.threads[t], e))
  }

  /** `lin` explains what is seen in `s`: its answers are right and its clock and instants in order; it has
      every returned call exactly once, with its answer, at an instant between call and return; nothing but
      calls made; and it leaves every circuit as it is in `s`. */
  ghost predicate Explains(cfg: Config, s: System, lin: seq<Entry>) {
    && Legal(cfg, lin) && Ordered(lin)
    && (forall d | d in s.log :: exists e :: e in lin && Matches(e, d))
    && (forall e | e in lin :: Accounted(s, e))
    && (forall target :: Replay(cfg, lin, target) == CircuitAt(s, target))
  }

  /** Every call is placed at a step since it was made, and reads the clock of that very instant. */
  predicate Timed(cfg: Config, ls: seq<Label>, lin: seq<Entry>) {
    forall e | e in lin :: e.call <= e.at < |ls| && e.now == After(cfg, ls[..e.at]).clock
  }

  /** The calls placed before step `k`. */
  function Upto(lin: seq<Entry>, k: nat): seq<Entry>
    decreases |lin|
  {
    if lin == [] || lin[|lin| - 1].at < k then lin else Upto(lin[..|lin| - 1], k)
  }

  /** At every instant every circuit is what the calls placed so far, one at a time, make of it. */
  ghost predicate Tracks(cfg: Config, ls: seq<Label>, lin: seq<Entry>) {
    forall k: nat, target | k <= |ls| :: Replay(cfg, Upto(lin, k), target) == CircuitAt(After(cfg, ls[..k]), target)
  }

  /** `lin` linearizes the interleaving `ls`: it explains what is seen at the end, at the clock readings and with
      the circuits of every instant on the way. */
  ghost predicate Linearizes(cfg: Config, ls: seq<Label>, lin: seq<Entry>) {
    Explains(cfg, After(cfg, ls), lin) && Timed(cfg, ls, lin) && Tracks(cfg, ls, lin)
  }

  // ----- The invariant of the simulation -----

  /** A call past its decision: its answer is fixed. */
  predicate Settled(pc: Pc) { pc.Downgrading? || pc.Leaving? || pc.Returning? }

  function AnswerOf(pc: Pc): Answer
    requires Settled(pc)
  {
    if pc.Downgrading? then Verdict(true) else pc.answer
  }

  predicate Fits(e: Entry, pc: Pc) {
    Settled(pc) && e.req == pc.req && e.call == pc.call && e.answer == AnswerOf(pc) && e.call <= e.at
  }

  ghost predicate Booked(lin: seq<Entry>, pc: Pc) {
    if Settled(pc) then exists e :: e in lin && Fits(e, pc)
    else !pc.Idle? ==> forall e | e in lin :: e.call != pc.call
  }

  /** Just before the failure at `p`, an Allow of `target` would have been admitted. */
  predicate Spot(cfg: Config, lin: seq<Entry>, target: string, call: nat, p: nat) {
    && p < |lin| && lin[p].req == Request(FailureCall, target) && call <= lin[p].at
    && Admits(cfg, Replay(cfg, lin[..p], target), lin[p].now)
  }

  /** A delayed Allow can be placed now, or else before some failure since it was called. */
  ghost predicate Placeable(cfg: Config, s: System, lin: seq<Entry>, pc: Pc) {
    pc.Gap? || pc.Rechecking? ==>
      || Admits(cfg, CircuitAt(s, pc.req.target), s.clock)
      || exists p: nat :: Spot(cfg, lin, pc.req.target, pc.call, p)
  }

  ghost predicate Inv(cfg: Config, s: System, lin: seq<Entry>) {
    && Sound(s) && Explains(cfg, s, lin)
    && (forall e | e in lin :: e.call <= e.at < s.step && e.now <= s.clock)
    && (forall t | t in s.threads :: Booked(lin, s.threads[t]) && Placeable(cfg, s, lin, s.threads[t]))
  }

  // ----- Inserting an admitted Allow just before a failure changes nothing else -----

  function Insert(lin: seq<Entry>, p: nat, e: Entry): seq<Entry>
    requires p <= |lin|
  {
    lin[..p] + [e] + lin[p..]
  }

  lemma InsertPrefix(lin: seq<Entry>, p: nat, e: Entry, q: nat)
    requires p <= |lin| && q <= |lin|
    ensures q <= p ==> Insert(lin, p, e)[..q] == lin[..q]
    ensures q == p ==> Insert(lin, p, e)[..q + 1] == lin[..q] + [e]
    ensures q > p ==> Insert(lin, p, e)[..q + 1] == Insert(lin[..q], p, e)
  {
  }

  lemma {:induction false} ReplayInsert(cfg: Config, lin: seq<Entry>, p: nat, e: Entry, target: string)
    requires p < |lin| && e.req.kind == AllowCall && lin[p].req == Request(FailureCall, e.req.target)
    ensures Replay(cfg, Insert(lin, p, e), target) == Replay(cfg, lin, target)
  {
    var n := |lin| - 1;
    assert Insert(lin, p, e)[|lin|] == lin[n];
    InsertPrefix(lin, p, e, n);
    if p == n {
      assert (lin[..p] + [e])[..p] == lin[..p];
      ReplayIsRun(cfg, lin[..p], target);
      CircuitTrace.HalfOpenRequestsStayZero(cfg, OpsOn(lin[..p], target));
    } else {
      ReplayInsert(cfg, lin[..n], p, e, target);
    }
  }

  lemma ReplayAppend(cfg: Config, lin: seq<Entry>, e: Entry, target: string)
    ensures Replay(cfg, lin + [e], target) ==
            if e.req.target == target then Step(cfg, Replay(cfg, lin, target), OpOf(e.req.kind, e.now))
            else Replay(cfg, lin, target)
  {
    assert (lin + [e])[..|lin|] == lin;
  }

  /** Admission repeats: an Allow admitted right after an admitted Allow, at any later clock. */
  lemma AdmitsAgain(cfg: Config, c: Circuit, now: int, later: int)
    requires cfg.maxRequests >= 1 && c.halfOpenRequests == 0 && now <= later && Admits(cfg, c, now)
    ensures Admits(cfg, c, later) && Admits(cfg, Step(cfg, c, Allow(now)), later)
  {
  }

  lemma InsertAt(lin: seq<Entry>, p: nat, e: Entry, i: nat)
    requires p <= |lin| && i <= |lin|
    ensures Insert(lin, p, e)[i] == if i < p then lin[i] else if i == p then e else lin[i - 1]
  {
  }

  /** An Allow just before the failure does not change that the failure has no answer. */
  lemma ReplayAtInsert(cfg: Config, lin: seq<Entry>, e: Entry, f: Entry)
    requires f.req.kind == FailureCall && Right(cfg, Replay(cfg, lin, f.req.target), f)
    ensures Right(cfg, Replay(cfg, lin + [e], f.req.target), f)
  {
  }

  lemma RightInsert(cfg: Config, lin: seq<Entry>, p: nat, e: Entry, i: nat)
    requires Legal(cfg, lin) && p < |lin| && i <= |lin|
    requires e.req.kind == AllowCall && lin[p].req == Request(FailureCall, e.req.target)
    requires Right(cfg, Replay(cfg, lin[..p], e.req.target), e)
    ensures var f := Insert(lin, p, e)[i]; Right(cfg, Replay(cfg, Insert(lin, p, e)[..i], f.req.target), f)
  {
    InsertAt(lin, p, e, i);
    if i <= p {
      InsertPrefix(lin, p, e, i);
    } else {
      var f := lin[i - 1];
      InsertPrefix(lin, p, e, i - 1);
      assert Right(cfg, Replay(cfg, lin[..i - 1], f.req.target), f);
      if i - 1 > p {
        ReplayInsert(cfg, lin[..i - 1], p, e, f.req.target);
      } else {
        ReplayAtInsert(cfg, lin[..p], e, f);
      }
    }
  }

  lemma LegalInsert(cfg: Config, lin: seq<Entry>, p: nat, e: Entry)
    requires Legal(cfg, lin) && p < |lin|
    requires e.req.kind == AllowCall && lin[p].req == Request(FailureCall, e.req.target)
    requires Right(cfg, Replay(cfg, lin[..p], e.req.target), e)
    ensures Legal(cfg, Insert(lin, p, e))
  {
    var lin' := Insert(lin, p, e);
    forall i | 0 <= i < |lin'| ensures Right(cfg, Replay(cfg, lin'[..i], lin'[i].req.target), lin'[i]) {
      RightInsert(cfg, lin, p, e, i);
    }
  }

  lemma SpotInsert(cfg: Config, lin: seq<Entry>, p: nat, e: Entry, target: string, call: nat, q: nat) returns (r: nat)
    requires cfg.maxRequests >= 1 && Spot(cfg, lin, target, call, q) && p < |lin|
    requires e.req.kind == AllowCall && lin[p].req == Request(FailureCall, e.req.target) && e.now == lin[p].now
    requires Right(cfg, Replay(cfg, lin[..p], e.req.target), e)
    ensures Spot(cfg, Insert(lin, p, e), target, call, r)
  {
    var lin' := Insert(lin, p, e);
    r := if q < p then q else q + 1;
    InsertPrefix(lin, p, e, q);
    if q == p {
      ReplayAppend(cfg, lin[..p], e, target);
      ReplayIsRun(cfg, lin[..p], target);
      CircuitTrace.HalfOpenRequestsStayZero(cfg, OpsOn(lin[..p], target));
      AdmitsAgain(cfg, Replay(cfg, lin[..p], target), e.now, lin[p].now);
    } else if q > p {
      ReplayInsert(cfg, lin[..q], p, e, target);
    }
  }

  lemma SpotAppend(cfg: Config, lin: seq<Entry>, e: Entry, target: string, call: nat, q: nat)
    requires Spot(cfg, lin, target, call, q)
    ensures Spot(cfg, lin + [e], target, call, q)
  {
    assert (lin + [e])[..q] == lin[..q];
  }

  // ----- Where each call is placed -----

  /** The call a thread's step puts at the end of the order, if it puts one there. */
  function Places(cfg: Config, s: System, t: nat): seq<Entry> {
    match PcOf(s, t)
    case Lookup(req, call) =>
      if req.target in s.circuits then []
      else if req.kind.ResetCall? then [Entry(req, call, s.clock, s.step, Nothing)]
      else if req.kind.InfoCall? then [Entry(req, call, s.clock, s.step, Report(FRESH))]
      else []
    case Deciding(req, call, id) =>
      var c := CircuitIn(s, id);
      if req.kind.InfoCall? then [Entry(req, call, s.clock, s.step, Report(c))]
      else if c.state == Open then []
      else [Entry(req, call, s.clock, s.step, Verdict(Admits(cfg, c, s.clock)))]
    case Checking(req, call, id) =>
      if TimedOut(cfg, CircuitIn(s, id), s.clock) then [] else [Entry(req, call, s.clock, s.step, Verdict(false))]
    case Rechecking(req, call, id) =>
      if Admits(cfg, CircuitIn(s, id), s.clock) then [Entry(req, call, s.clock, s.step, Verdict(true))] else []
    case Writing(req, call, id) => [Entry(req, call, s.clock, s.step, Nothing)]
    case _ => []
  }

  predicate IsPlaced(cfg: Config, s: System, s': System, t: nat, e: Entry) {
    && e.at == s.step && e.now == s.clock && !PcOf(s, t).Idle? && !Settled(PcOf(s, t)) && PcOf(s, t).call <= e.at
    && e.req == PcOf(s, t).req && e.call == PcOf(s, t).call && Fits(e, PcOf(s', t))
    && Right(cfg, CircuitAt(s, e.req.target), e)
  }

  lemma PlacesRight(cfg: Config, s: System, t: nat)
    requires Sound(s) && Enabled(s, Move(t)) && Places(cfg, s, t) != []
    ensures |Places(cfg, s, t)| == 1 && IsPlaced(cfg, s, Apply(cfg, s, Move(t)), t, Places(cfg, s, t)[0])
  {
    assert PcSound(s, s.threads[t]);
  }

  /** A step moves no circuit but the one of the call it places, and that one as the call alone would. */
  lemma Effect(cfg: Config, s: System, l: Label, target: string)
    requires Sound(s) && Enabled(s, l)
    ensures CircuitAt(Apply(cfg, s, l), target) ==
            if l.Move? && Places(cfg, s, l.thread) != [] && Places(cfg, s, l.thread)[0].req.target == target
            then Step(cfg, CircuitAt(s, target), OpOf(Places(cfg, s, l.thread)[0].req.kind, s.clock))
            else CircuitAt(s, target)
  {
    if l.Move? { assert PcSound(s, s.threads[l.thread]); }
    MapKept(cfg, s, l);
  }

  /** A step that places nothing decides nothing, except a recheck that comes too late. */
  lemma PlacesNothing(cfg: Config, s: System, t: nat)
    requires Sound(s) && Enabled(s, Move(t)) && Places(cfg, s, t) == []
    ensures var p, q := PcOf(s, t), PcOf(Apply(cfg, s, Move(t)), t);
            && (Settled(q) ==> p.Rechecking? || (Settled(p) && AnswerOf(p) == AnswerOf(q)))
            && (Settled(p) && !Settled(q) ==> q.Idle?)
            && (q.Gap? ==> Admits(cfg, CircuitAt(s, q.req.target), s.clock))
            && (q.Rechecking? ==> p.Gap?)
            && (p.Rechecking? ==> !Admits(cfg, CircuitAt(s, p.req.target), s.clock) && q.Downgrading?)
  {
    assert PcSound(s, s.threads[t]);
  }

  lemma ReturnedAnswer(cfg: Config, s: System, t: nat)
    requires Enabled(s, Move(t)) && PcOf(Apply(cfg, s, Move(t)), t).Idle?
    ensures var p := PcOf(s, t);
            Settled(p) && Apply(cfg, s, Move(t)).log == s.log + [Returned(p.req, p.call, s.step, AnswerOf(p))]
  {
  }

  // ----- The books -----

  lemma SameCall(lin: seq<Entry>, e: Entry, f: Entry)
    requires Ordered(lin) && e in lin && f in lin && e.call == f.call
    ensures e == f
  {
  }

  lemma AccountedKept(cfg: Config, s: System, l: Label, lin: seq<Entry>, e: Entry)
    requires Inv(cfg, s, lin) && Enabled(s, l) && e in lin
    ensures Accounted(Apply(cfg, s, l), e)
  {
    var s' := Apply(cfg, s, l);
    if d :| d in s.log && Matches(e, d) {
      if !l.Tick? { ShapeOf(cfg, s, l); }
      assert d in s'.log;
    } else {
      var t :| t in s.threads && InFlight(s.threads[t], e);
      if !l.Tick? { ShapeOf(cfg, s, l); }
      if l.Tick? || l.thread != t {
        assert InFlight(s'.threads[t], e);
      } else if PcOf(s', t).Idle? {
        ReturnedAnswer(cfg, s, t);
        assert Booked(lin, s.threads[t]);
        var f :| f in lin && Fits(f, s.threads[t]);
        SameCall(lin, e, f);
        assert Matches(e, s'.log[|s.log|]);
      } else {
        assert InFlight(s'.threads[t], e);
      }
    }
  }

  lemma LogKept(cfg: Config, s: System, l: Label, lin: seq<Entry>, d: Returned)
    requires Inv(cfg, s, lin) && Enabled(s, l) && d in Apply(cfg, s, l).log
    ensures exists e :: e in lin && Matches(e, d)
  {
    if d !in s.log {
      ShapeOf(cfg, s, l);
      ReturnedAnswer(cfg, s, l.thread);
      assert Booked(lin, s.threads[l.thread]);
      var e :| e in lin && Fits(e, s.threads[l.thread]);
      assert Matches(e, d);
    }
  }

  // ----- One step of the simulation: the order stays, grows at the end, or grows before a failure -----

  predicate Late(s: System, l: Label) {
    l.Move? && PcOf(s, l.thread).Rechecking?
  }

  lemma ClockKept(cfg: Config, s: System, l: Label)
    requires Enabled(s, l)
    ensures Apply(cfg, s, l).step == s.step + 1 && Apply(cfg, s, l).clock >= s.clock
    ensures !l.Tick? ==> Apply(cfg, s, l).clock == s.clock
  {
  }

  lemma Assemble(cfg: Config, s: System, s': System, lin: seq<Entry>, lin': seq<Entry>)
    requires Inv(cfg, s, lin) && Sound(s') && s'.step == s.step + 1 && s'.clock >= s.clock
    requires forall e | e in lin' :: e in lin || (e.call <= e.at <= s.step && e.now <= s.clock)
    requires Legal(cfg, lin') && Ordered(lin')
    requires forall target :: Replay(cfg, lin', target) == CircuitAt(s', target)
    requires forall d | d in s'.log :: exists e :: e in lin' && Matches(e, d)
    requires forall e | e in lin' :: Accounted(s', e)
    requires forall t | t in s'.threads :: Booked(lin', s'.threads[t]) && Placeable(cfg, s', lin', s'.threads[t])
    ensures Inv(cfg, s', lin')
  {
  }

  lemma SilentBooks(cfg: Config, s: System, l: Label, lin: seq<Entry>)
    requires Inv(cfg, s, lin) && Enabled(s, l)
    ensures forall e | e in lin :: Accounted(Apply(cfg, s, l), e)
    ensures forall d | d in Apply(cfg, s, l).log :: exists e :: e in lin && Matches(e, d)
  {
    forall e | e in lin ensures Accounted(Apply(cfg, s, l), e) { AccountedKept(cfg, s, l, lin, e); }
    forall d | d in Apply(cfg, s, l).log ensures exists e :: e in lin && Matches(e, d) { LogKept(cfg, s, l, lin, d); }
  }

  lemma SilentThreads(cfg: Config, s: System, l: Label, lin: seq<Entry>)
    requires Inv(cfg, s, lin) && Enabled(s, l)
    requires l.Move? ==> Places(cfg, s, l.thread) == [] && !Late(s, l)
    ensures var s' := Apply(cfg, s, l);
            forall t | t in s'.threads :: Booked(lin, s'.threads[t]) && Placeable(cfg, s', lin, s'.threads[t])
  {
    var s' := Apply(cfg, s, l);
    forall t | t in s'.threads ensures Booked(lin, s'.threads[t]) && Placeable(cfg, s', lin, s'.threads[t]) {
      SilentThread(cfg, s, l, lin, t);
    }
  }

  lemma SilentReplay(cfg: Config, s: System, l: Label, lin: seq<Entry>)
    requires Inv(cfg, s, lin) && Enabled(s, l)
    requires l.Move? ==> Places(cfg, s, l.thread) == []
    ensures forall target :: Replay(cfg, lin, target) == CircuitAt(Apply(cfg, s, l), target)
  {
    forall target ensures Replay(cfg, lin, target) == CircuitAt(Apply(cfg, s, l), target) { Effect(cfg, s, l, target); }
  }

  lemma SilentStep(cfg: Config, s: System, l: Label, lin: seq<Entry>)
    requires Inv(cfg, s, lin) && Enabled(s, l)
    requires l.Move? ==> Places(cfg, s, l.thread) == [] && !Late(s, l)
    ensures Inv(cfg, Apply(cfg, s, l), lin)
  {
    SoundKept(cfg, s, l);
    ClockKept(cfg, s, l);
    SilentReplay(cfg, s, l, lin);
    SilentBooks(cfg, s, l, lin);
    SilentThreads(cfg, s, l, lin);
    Assemble(cfg, s, Apply(cfg, s, l), lin, lin);
  }

  lemma StillPlaceable(cfg: Config, s: System, s': System, lin: seq<Entry>, pc: Pc)
    requires Placeable(cfg, s, lin, pc) && s.clock <= s'.clock
    requires !pc.Idle? ==> CircuitAt(s', pc.req.target) == CircuitAt(s, pc.req.target)
    ensures Placeable(cfg, s', lin, pc)
  {
  }

  lemma SilentMover(cfg: Config, s: System, t: nat, lin: seq<Entry>)
    requires Inv(cfg, s, lin) && Enabled(s, Move(t)) && Places(cfg, s, t) == [] && !Late(s, Move(t))
    ensures var s' := Apply(cfg, s, Move(t));
            Booked(lin, PcOf(s', t)) && Placeable(cfg, s, lin, PcOf(s', t))
  {
    var p, q := PcOf(s, t), PcOf(Apply(cfg, s, Move(t)), t);
    assert Booked(lin, p) && Placeable(cfg, s, lin, p);
    PlacesNothing(cfg, s, t);
    ShapeOf(cfg, s, Move(t));
    if Settled(p) && Settled(q) {
      var e :| e in lin && Fits(e, p);
      assert Fits(e, q);
    }
  }

  lemma SilentThread(cfg: Config, s: System, l: Label, lin: seq<Entry>, t: nat)
    requires Inv(cfg, s, lin) && Enabled(s, l) && t in Apply(cfg, s, l).threads
    requires l.Move? ==> Places(cfg, s, l.thread) == [] && !Late(s, l)
    ensures Booked(lin, Apply(cfg, s, l).threads[t])
    ensures Placeable(cfg, Apply(cfg, s, l), lin, Apply(cfg, s, l).threads[t])
  {
    var s' := Apply(cfg, s, l);
    var q := PcOf(s', t);
    ClockKept(cfg, s, l);
    if !l.Tick? { ShapeOf(cfg, s, l); }
    if l.Move? && l.thread == t { SilentMover(cfg, s, t, lin); }
    if !q.Idle? { Effect(cfg, s, l, q.req.target); }
    StillPlaceable(cfg, s, s', lin, q);
  }

  /** Only a failure makes a circuit refuse what it would have admitted. */
  lemma AdmittedUntilFailure(cfg: Config, c: Circuit, op: Op)
    requires cfg.maxRequests >= 1 && c.halfOpenRequests == 0 && Admits(cfg, c, op.now) && !op.Failure?
    ensures Admits(cfg, Step(cfg, c, op), op.now)
  {
  }

  /** What another thread's delayed Allow could rely on, it still can after `e` takes effect. */
  lemma PlaceableAppend(cfg: Config, s: System, s': System, lin: seq<Entry>, e: Entry, pc: Pc)
    requires cfg.maxRequests >= 1 && Placeable(cfg, s, lin, pc) && !pc.Idle? && pc.call <= s.step
    requires e.at == s.step && e.now == s.clock == s'.clock
    requires forall target :: Replay(cfg, lin, target) == CircuitAt(s, target)
    requires CircuitAt(s', pc.req.target) == Replay(cfg, lin + [e], pc.req.target)
    ensures Placeable(cfg, s', lin + [e], pc)
  {
    if pc.Gap? || pc.Rechecking? {
      var target := pc.req.target;
      ReplayAppend(cfg, lin, e, target);
      if Admits(cfg, CircuitAt(s, target), s.clock) {
        ReplayIsRun(cfg, lin, target);
        CircuitTrace.HalfOpenRequestsStayZero(cfg, OpsOn(lin, target));
        if e.req == Request(FailureCall, target) {
          assert (lin + [e])[..|lin|] == lin;
          assert Spot(cfg, lin + [e], target, pc.call, |lin|);
        } else if e.req.target == target {
          AdmittedUntilFailure(cfg, CircuitAt(s, target), OpOf(e.req.kind, e.now));
        }
      } else {
        var q: nat :| Spot(cfg, lin, target, pc.call, q);
        SpotAppend(cfg, lin, e, target, pc.call, q);
      }
    }
  }

  lemma LegalAppend(cfg: Config, lin: seq<Entry>, e: Entry)
    requires Legal(cfg, lin) && Right(cfg, Replay(cfg, lin, e.req.target), e)
    ensures Legal(cfg, lin + [e])
  {
    forall i | 0 <= i <= |lin|
      ensures Right(cfg, Replay(cfg, (lin + [e])[..i], (lin + [e])[i].req.target), (lin + [e])[i])
    {
      assert (lin + [e])[..i] == lin[..i];
      if i == |lin| { assert lin[..i] == lin; }
    }
  }

  lemma BookedMore(lin: seq<Entry>, lin': seq<Entry>, e: Entry, pc: Pc)
    requires Booked(lin, pc) && (forall f :: f in lin' <==> f in lin || f == e)
    requires !Settled(pc) && !pc.Idle? ==> e.call != pc.call
    ensures Booked(lin', pc)
  {
  }

  /** Threads other than the one whose call is placed keep their books. */
  lemma GrownBooks(cfg: Config, s: System, t: nat, lin: seq<Entry>, lin': seq<Entry>, e: Entry)
    requires Inv(cfg, s, lin) && Enabled(s, Move(t))
    requires (forall f :: f in lin' <==> f in lin || f == e)
    requires !PcOf(s, t).Idle? && e.req == PcOf(s, t).req && e.call == PcOf(s, t).call
    requires Fits(e, PcOf(Apply(cfg, s, Move(t)), t))
    ensures var s' := Apply(cfg, s, Move(t));
            && (forall u | u in s'.threads :: Booked(lin', s'.threads[u]))
            && (forall f | f in lin' :: Accounted(s', f))
            && (forall d | d in s'.log :: exists f :: f in lin' && Matches(f, d))
  {
    var s' := Apply(cfg, s, Move(t));
    ShapeOf(cfg, s, Move(t));
    forall u | u in s'.threads ensures Booked(lin', s'.threads[u]) {
      if u != t { BookedMore(lin, lin', e, s.threads[u]); }
    }
    forall f | f in lin' ensures Accounted(s', f) {
      if f == e { assert InFlight(s'.threads[t], e); } else { AccountedKept(cfg, s, Move(t), lin, f); }
    }
    forall d | d in s'.log ensures exists f :: f in lin' && Matches(f, d) {
      LogKept(cfg, s, Move(t), lin, d);
      var f :| f in lin && Matches(f, d);
      assert f in lin';
    }
  }

  lemma OrderedAppend(cfg: Config, s: System, lin: seq<Entry>, e: Entry)
    requires Inv(cfg, s, lin) && e.at == s.step && e.now == s.clock
    requires forall f | f in lin :: f.call != e.call
    ensures Ordered(lin + [e])
  {
    forall i | 0 <= i < |lin| ensures lin[i].at <= e.at && lin[i].now <= e.now && lin[i].call != e.call {
      assert lin[i] in lin;
    }
  }

  lemma AppendReplay(cfg: Config, s: System, t: nat, lin: seq<Entry>)
    requires Inv(cfg, s, lin) && Enabled(s, Move(t)) && Places(cfg, s, t) != []
    ensures forall target :: Replay(cfg, lin + [Places(cfg, s, t)[0]], target) == CircuitAt(Apply(cfg, s, Move(t)), target)
  {
    PlacesRight(cfg, s, t);
    forall target
      ensures Replay(cfg, lin + [Places(cfg, s, t)[0]], target) == CircuitAt(Apply(cfg, s, Move(t)), target)
    {
      Effect(cfg, s, Move(t), target);
      ReplayAppend(cfg, lin, Places(cfg, s, t)[0], target);
    }
  }

  lemma AppendPlaceable(cfg: Config, s: System, s': System, t: nat, lin: seq<Entry>, e: Entry)
    requires cfg.maxRequests >= 1 && Inv(cfg, s, lin) && Shape(s, s', t)
    requires e.at == s.step && e.now == s.clock == s'.clock && Fits(e, PcOf(s', t))
    requires forall target :: Replay(cfg, lin + [e], target) == CircuitAt(s', target)
    ensures forall u | u in s'.threads :: Placeable(cfg, s', lin + [e], s'.threads[u])
  {
    forall u | u in s'.threads ensures Placeable(cfg, s', lin + [e], s'.threads[u]) {
      if u != t && !s.threads[u].Idle? {
        assert PcSound(s, s.threads[u]);
        PlaceableAppend(cfg, s, s', lin, e, s.threads[u]);
      }
    }
  }

  lemma AppendStep(cfg: Config, s: System, t: nat, lin: seq<Entry>)
    requires cfg.maxRequests >= 1 && Inv(cfg, s, lin) && Enabled(s, Move(t)) && Places(cfg, s, t) != []
    ensures Inv(cfg, Apply(cfg, s, Move(t)), lin + [Places(cfg, s, t)[0]])
  {
    var e := Places(cfg, s, t)[0];
    SoundKept(cfg, s, Move(t));
    ClockKept(cfg, s, Move(t));
    PlacesRight(cfg, s, t);
    LegalAppend(cfg, lin, e);
    assert Booked(lin, s.threads[t]);
    OrderedAppend(cfg, s, lin, e);
    AppendReplay(cfg, s, t, lin);
    GrownBooks(cfg, s, t, lin, lin + [e], e);
    ShapeOf(cfg, s, Move(t));
    AppendPlaceable(cfg, s, Apply(cfg, s, Move(t)), t, lin, e);
    Assemble(cfg, s, Apply(cfg, s, Move(t)), lin, lin + [e]);
  }

  lemma PlaceableInsert(cfg: Config, s: System, s': System, lin: seq<Entry>, p: nat, e: Entry, pc: Pc)
    requires cfg.maxRequests >= 1 && Placeable(cfg, s, lin, pc) && !pc.Idle?
    requires s.clock == s'.clock && CircuitAt(s', pc.req.target) == CircuitAt(s, pc.req.target)
    requires p < |lin| && e.req.kind == AllowCall && lin[p].req == Request(FailureCall, e.req.target)
    requires e.now == lin[p].now && Right(cfg, Replay(cfg, lin[..p], e.req.target), e)
    ensures Placeable(cfg, s', Insert(lin, p, e), pc)
  {
    if (pc.Gap? || pc.Rechecking?) && !Admits(cfg, CircuitAt(s, pc.req.target), s.clock) {
      var q: nat :| Spot(cfg, lin, pc.req.target, pc.call, q);
      var r := SpotInsert(cfg, lin, p, e, pc.req.target, pc.call, q);
    }
  }

  lemma OrderedInsert(lin: seq<Entry>, p: nat, e: Entry)
    requires Ordered(lin) && p < |lin| && e.at == lin[p].at && e.now == lin[p].now
    requires forall f | f in lin :: f.call != e.call
    ensures Ordered(Insert(lin, p, e))
  {
    var lin' := Insert(lin, p, e);
    forall i, j | 0 <= i < j < |lin'|
      ensures lin'[i].at <= lin'[j].at && lin'[i].now <= lin'[j].now && lin'[i].call != lin'[j].call
    {
      InsertAt(lin, p, e, i);
      InsertAt(lin, p, e, j);
      if i == p { assert lin[j - 1] in lin; }
      if j == p { assert lin[i] in lin; }
    }
  }

  lemma InsertMembers(lin: seq<Entry>, p: nat, e: Entry, f: Entry)
    requires p <= |lin|
    ensures f in Insert(lin, p, e) <==> f in lin || f == e
  {
    assert lin == lin[..p] + lin[p..];
  }

  lemma InsertReplay(cfg: Config, s: System, t: nat, lin: seq<Entry>, p: nat, e: Entry)
    requires Inv(cfg, s, lin) && Enabled(s, Move(t)) && Places(cfg, s, t) == []
    requires p < |lin| && e.req.kind == AllowCall && lin[p].req == Request(FailureCall, e.req.target)
    ensures forall u :: Replay(cfg, Insert(lin, p, e), u) == CircuitAt(Apply(cfg, s, Move(t)), u)
  {
    forall u ensures Replay(cfg, Insert(lin, p, e), u) == CircuitAt(Apply(cfg, s, Move(t)), u) {
      Effect(cfg, s, Move(t), u);
      ReplayInsert(cfg, lin, p, e, u);
    }
  }

  lemma InsertPlaceable(cfg: Config, s: System, t: nat, lin: seq<Entry>, p: nat, e: Entry)
    requires cfg.maxRequests >= 1 && Inv(cfg, s, lin) && Enabled(s, Move(t)) && Places(cfg, s, t) == []
    requires p < |lin| && e.req.kind == AllowCall && lin[p].req == Request(FailureCall, e.req.target)
    requires e.now == lin[p].now && Right(cfg, Replay(cfg, lin[..p], e.req.target), e)
    requires Fits(e, PcOf(Apply(cfg, s, Move(t)), t))
    ensures var s' := Apply(cfg, s, Move(t));
            forall u | u in s'.threads :: Placeable(cfg, s', Insert(lin, p, e), s'.threads[u])
  {
    var s' := Apply(cfg, s, Move(t));
    ShapeOf(cfg, s, Move(t));
    ClockKept(cfg, s, Move(t));
    forall u | u in s'.threads ensures Placeable(cfg, s', Insert(lin, p, e), s'.threads[u]) {
      if u != t && !s.threads[u].Idle? {
        Effect(cfg, s, Move(t), s.threads[u].req.target);
        PlaceableInsert(cfg, s, s', lin, p, e, s.threads[u]);
      }
    }
  }

  lemma LateThread(cfg: Config, s: System, t: nat, lin: seq<Entry>)
    requires Inv(cfg, s, lin) && Enabled(s, Move(t)) && Late(s, Move(t)) && Places(cfg, s, t) == []
    ensures var pc := s.threads[t];
            && pc.req.kind == AllowCall && (forall f | f in lin :: f.call != pc.call)
            && (exists p: nat :: Spot(cfg, lin, pc.req.target, pc.call, p))
            && PcOf(Apply(cfg, s, Move(t)), t) == Downgrading(pc.req, pc.call, pc.id)
  {
    var pc := s.threads[t];
    PlacesNothing(cfg, s, t);
    assert PcSound(s, pc) && Placeable(cfg, s, lin, pc) && Booked(lin, pc);
  }

  lemma EntryAtSpot(cfg: Config, lin: seq<Entry>, req: Request, call: nat) returns (p: nat, e: Entry)
    requires req.kind == AllowCall && exists q: nat :: Spot(cfg, lin, req.target, call, q)
    ensures p < |lin| && lin[p].req == Request(FailureCall, req.target) && call <= lin[p].at
    ensures e == Entry(req, call, lin[p].now, lin[p].at, Verdict(true))
    ensures Right(cfg, Replay(cfg, lin[..p], req.target), e)
  {
    p :| Spot(cfg, lin, req.target, call, p);
    e := Entry(req, call, lin[p].now, lin[p].at, Verdict(true));
  }

  /** The place of an Allow whose recheck comes too late: just before some failure since it was called. */
  lemma LateSpot(cfg: Config, s: System, t: nat, lin: seq<Entry>) returns (p: nat, e: Entry)
    requires Inv(cfg, s, lin) && Enabled(s, Move(t)) && Late(s, Move(t)) && Places(cfg, s, t) == []
    ensures p < |lin| && e.req.kind == AllowCall && lin[p].req == Request(FailureCall, e.req.target)
    ensures e.at == lin[p].at && e.now == lin[p].now && Right(cfg, Replay(cfg, lin[..p], e.req.target), e)
    ensures e.req == PcOf(s, t).req && e.call == PcOf(s, t).call && e.call <= e.at
    ensures Fits(e, PcOf(Apply(cfg, s, Move(t)), t)) && forall f | f in lin :: f.call != e.call
  {
    var pc := s.threads[t];
    LateThread(cfg, s, t, lin);
    p, e := EntryAtSpot(cfg, lin, pc.req, pc.call);
  }

  /** A recheck that finds the circuit open again: its Allow belongs before the failure that reopened it. */
  lemma InsertStep(cfg: Config, s: System, t: nat, lin: seq<Entry>) returns (lin': seq<Entry>)
    requires cfg.maxRequests >= 1 && Inv(cfg, s, lin) && Enabled(s, Move(t))
    requires Late(s, Move(t)) && Places(cfg, s, t) == []
    ensures Inv(cfg, Apply(cfg, s, Move(t)), lin') && Grows(s, lin, lin')
  {
    var p, e := LateSpot(cfg, s, t, lin);
    lin' := Insert(lin, p, e);
    assert Twin(lin[p], e);
    SoundKept(cfg, s, Move(t));
    ClockKept(cfg, s, Move(t));
    LegalInsert(cfg, lin, p, e);
    OrderedInsert(lin, p, e);
    InsertReplay(cfg, s, t, lin, p, e);
    assert lin[p] in lin;
    forall f ensures f in lin' <==> f in lin || f == e { InsertMembers(lin, p, e, f); }
    GrownBooks(cfg, s, t, lin, lin', e);
    InsertPlaceable(cfg, s, t, lin, p, e);
    Assemble(cfg, s, Apply(cfg, s, Move(t)), lin, lin');
  }

  /** How the order grows in one step: not at all, by a call at this instant, or by an Allow that takes the
      instant of a failure already in the order, and its place before it. */
  ghost predicate Grows(s: System, lin: seq<Entry>, lin': seq<Entry>) {
    || lin' == lin
    || (exists e :: lin' == lin + [e] && e.at == s.step && e.now == s.clock)
    || (exists p: nat, e :: p < |lin| && lin' == Insert(lin, p, e) && Twin(lin[p], e))
  }

  /** An Allow at the instant of a failure of its target. */
  predicate Twin(failure: Entry, e: Entry) {
    && e.req.kind == AllowCall && failure.req == Request(FailureCall, e.req.target)
    && e.call <= e.at == failure.at && e.now == failure.now
  }

  lemma Simulate(cfg: Config, s: System, l: Label, lin: seq<Entry>) returns (lin': seq<Entry>)
    requires cfg.maxRequests >= 1 && Inv(cfg, s, lin) && Enabled(s, l)
    ensures Inv(cfg, Apply(cfg, s, l), lin') && Grows(s, lin, lin')
  {
    if l.Move? && Places(cfg, s, l.thread) != [] {
      lin' := lin + [Places(cfg, s, l.thread)[0]];
      PlacesRight(cfg, s, l.thread);
      AppendStep(cfg, s, l.thread, lin);
    } else if Late(s, l) {
      lin' := InsertStep(cfg, s, l.thread, lin);
    } else {
      lin' := lin;
      SilentStep(cfg, s, l, lin);
    }
  }

  // ----- Every instant of the interleaving -----

  lemma {:induction false} StepsCounted(cfg: Config, ls: seq<Label>)
    ensures After(cfg, ls).step == |ls|
  {
    if ls != [] { StepsCounted(cfg, ls[..|ls| - 1]); }
  }

  lemma {:induction false} UptoAll(lin: seq<Entry>, k: nat)
    requires forall e | e in lin :: e.at < k
    ensures Upto(lin, k) == lin
  {
    if lin != [] { assert lin[|lin| - 1] in lin; }
  }

  /** A call placed before a failure, at its instant, is there whenever the failure is. */
  lemma {:induction false} UptoInsert(lin: seq<Entry>, p: nat, e: Entry, k: nat)
    requires p < |lin| && e.at == lin[p].at && forall i | p <= i < |lin| :: lin[p].at <= lin[i].at
    ensures if lin[p].at < k
            then p < |Upto(lin, k)| && Upto(lin, k) <= lin && Upto(Insert(lin, p, e), k) == Insert(Upto(lin, k), p, e)
            else Upto(Insert(lin, p, e), k) == Upto(lin, k)
  {
    var n, lin' := |lin| - 1, Insert(lin, p, e);
    assert lin'[n + 1] == lin[n];
    if lin[n].at >= k {
      if p < n {
        assert lin'[..n + 1] == Insert(lin[..n], p, e);
        UptoInsert(lin[..n], p, e, k);
      } else {
        assert lin'[..n + 1][n] == e && lin'[..n + 1][..n] == lin[..n];
      }
    }
  }

  lemma TimedNext(cfg: Config, ls: seq<Label>, lin: seq<Entry>, lin': seq<Entry>)
    requires ls != [] && Timed(cfg, ls[..|ls| - 1], lin) && Grows(After(cfg, ls[..|ls| - 1]), lin, lin')
    requires forall e | e in lin' :: e.call <= e.at < |ls|
    ensures Timed(cfg, ls, lin')
  {
    var n := |ls| - 1;
    StepsCounted(cfg, ls[..n]);
    forall e | e in lin' ensures e.now == After(cfg, ls[..e.at]).clock {
      if e in lin {
        assert ls[..n][..e.at] == ls[..e.at];
      } else if p: nat, f :| p < |lin| && lin' == Insert(lin, p, f) && Twin(lin[p], f) {
        InsertMembers(lin, p, f, e);
        assert lin[p] in lin && ls[..n][..lin[p].at] == ls[..e.at];
      }
    }
  }

  lemma TracksNext(cfg: Config, ls: seq<Label>, lin: seq<Entry>, lin': seq<Entry>, k: nat, target: string)
    requires ls != [] && k < |ls| && Ordered(lin)
    requires Tracks(cfg, ls[..|ls| - 1], lin) && Grows(After(cfg, ls[..|ls| - 1]), lin, lin')
    ensures Replay(cfg, Upto(lin', k), target) == CircuitAt(After(cfg, ls[..k]), target)
  {
    var n := |ls| - 1;
    StepsCounted(cfg, ls[..n]);
    assert ls[..n][..k] == ls[..k];
    assert Replay(cfg, Upto(lin, k), target) == CircuitAt(After(cfg, ls[..n][..k]), target);
    if e :| lin' == lin + [e] && e.at == After(cfg, ls[..n]).step {
      assert lin'[..|lin|] == lin;
    } else if lin' != lin {
      var p: nat, e :| p < |lin| && lin' == Insert(lin, p, e) && Twin(lin[p], e);
      UptoInsert(lin, p, e, k);
      if lin[p].at < k { ReplayInsert(cfg, Upto(lin, k), p, e, target); }
    }
  }

  lemma {:induction false} Explained(cfg: Config, ls: seq<Label>) returns (lin: seq<Entry>)
    requires cfg.maxRequests >= 1 && Possible(cfg, ls)
    ensures Inv(cfg, After(cfg, ls), lin) && Timed(cfg, ls, lin) && Tracks(cfg, ls, lin)
  {
    if ls == [] {
      lin := [];
    } else {
      var n := |ls| - 1;
      PossiblePrefix(cfg, ls, n);
      var before := Explained(cfg, ls[..n]);
      lin := Simulate(cfg, After(cfg, ls[..n]), ls[n], before);
      StepsCounted(cfg, ls);
      TimedNext(cfg, ls, before, lin);
      forall k: nat, target | k <= |ls|
        ensures Replay(cfg, Upto(lin, k), target) == CircuitAt(After(cfg, ls[..k]), target)
      {
        if k < |ls| { TracksNext(cfg, ls, before, lin, k, target); }
        else { UptoAll(lin, k); assert ls[..k] == ls; }
      }
    }
  }

  /** With MaxRequests at least 1 the breaker is linearizable, lock gap and all. */
  lemma Linearizable(cfg: Config, ls: seq<Label>)
    requires cfg.maxRequests >= 1 && Possible(cfg, ls)
    ensures exists lin :: Linearizes(cfg, ls, lin)
  {
    var lin := Explained(cfg, ls);
    assert Linearizes(cfg, ls, lin);
  }

  /** The order respects real time: a call that returned before another was made comes first. */
  lemma RealTimeOrder(cfg: Config, s: System, lin: seq<Entry>, i: nat, j: nat, c: Returned, d: Returned)
    requires Explains(cfg, s, lin) && i < |lin| && j < |lin|
    requires Matches(lin[i], c) && Matches(lin[j], d) && c.ret < d.call
    ensures i < j
  {
    assert lin[i].at < lin[j].at;
  }

  // ----- Each circuit by itself, whatever the configuration -----

  /** The operation a step carries out on a target, if it carries out one. */
  function Performs(cfg: Config, s: System, l: Label, target: string): seq<Op> {
    if l.Move? && Places(cfg, s, l.thread) != [] && Places(cfg, s, l.thread)[0].req.target == target
    then [OpOf(Places(cfg, s, l.thread)[0].req.kind, s.clock)]
    else []
  }

  /** The operations an interleaving carries out on a target, each with the clock of its instant. */
  function Performed(cfg: Config, ls: seq<Label>, target: string): seq<Op>
    decreases |ls|
  {
    if ls == [] then []
    else
      var init := ls[..|ls| - 1];
      Performed(cfg, init, target) + Performs(cfg, After(cfg, init), ls[|ls| - 1], target)
  }

  /** In every configuration every circuit of every interleaving is one a sequential run reaches: the operations
      carried out on it, in the order of their instants. */
  lemma {:induction false} ConcurrentCircuit(cfg: Config, ls: seq<Label>, target: string)
    requires Possible(cfg, ls)
    ensures CircuitAt(After(cfg, ls), target) == Run(cfg, FRESH, Performed(cfg, ls, target))
  {
    if ls != [] {
      var n := |ls| - 1;
      PossiblePrefix(cfg, ls, n);
      ConcurrentCircuit(cfg, ls[..n], target);
      AlwaysSound(cfg, ls[..n]);
      Effect(cfg, After(cfg, ls[..n]), ls[n], target);
      var ops := Performed(cfg, ls[..n], target);
      var more := Performs(cfg, After(cfg, ls[..n]), ls[n], target);
      assert (ops + more)[..|ops|] == ops;
      if more != [] { assert Run(cfg, FRESH, ops + more) == Step(cfg, Run(cfg, FRESH, ops), more[0]); }
      else { assert ops + more == ops; }
    }
  }

  /** The operations read a clock that does not go back, up to `last`. */
  predicate InOrder(ops: seq<Op>, last: int) {
    && (forall i | 0 <= i < |ops| :: ops[i].now <= last)
    && (forall i, j | 0 <= i < j < |ops| :: ops[i].now <= ops[j].now)
  }

  lemma InOrderNext(ops: seq<Op>, more: seq<Op>, now: int, later: int)
    requires InOrder(ops, now) && now <= later && forall op | op in more :: op.now == now
    ensures InOrder(ops + more, later)
  {
    assert forall i | 0 <= i < |more| :: more[i] in more;
  }

  lemma PerformsNow(cfg: Config, s: System, l: Label, target: string)
    ensures forall op | op in Performs(cfg, s, l, target) :: op.now == s.clock
  {
  }

  lemma {:induction false} PerformedInOrder(cfg: Config, ls: seq<Label>, target: string)
    requires Possible(cfg, ls)
    ensures InOrder(Performed(cfg, ls, target), After(cfg, ls).clock)
  {
    if ls != [] {
      var n := |ls| - 1;
      PossiblePrefix(cfg, ls, n);
      PerformedInOrder(cfg, ls[..n], target);
      var s := After(cfg, ls[..n]);
      ClockKept(cfg, s, ls[n]);
      PerformsNow(cfg, s, ls[n], target);
      InOrderNext(Performed(cfg, ls[..n], target), Performs(cfg, s, ls[n], target),
                  s.clock, Apply(cfg, s, ls[n]).clock);
    }
  }

  /** So the invariants of sequential runs hold in every interleaving. */
  lemma ConcurrentInvariants(cfg: Config, ls: seq<Label>, target: string)
    requires CircuitTrace.ValidConfig(cfg) && Possible(cfg, ls)
    ensures var c := CircuitAt(After(cfg, ls), target);
            && (c.state == Closed ==> c.failures < cfg.failureThreshold)
            && (c.state == HalfOpen ==> c.successes < cfg.successThreshold)
            && (c.state == Open ==> c.lastFailure.At?)
            && c.failures >= 0 && c.successes >= 0
            && (c.failures == 0 || c.successes == 0) && c.halfOpenRequests == 0
  {
    ConcurrentCircuit(cfg, ls, target);
    CircuitTrace.ReachableCircuit(cfg, Performed(cfg, ls, target));
  }

  /** The circuit at an earlier instant is the one before a later operation. */
  lemma PerformedBefore(cfg: Config, ls: seq<Label>, i: nat, target: string)
    requires Possible(cfg, ls) && i <= |ls|
    ensures |Performed(cfg, ls[..i], target)| <= |Performed(cfg, ls, target)|
    ensures CircuitAt(After(cfg, ls[..i]), target) ==
            Before(cfg, Performed(cfg, ls, target), |Performed(cfg, ls[..i], target)|)
  {
    PossiblePrefix(cfg, ls, i);
    ConcurrentCircuit(cfg, ls[..i], target);
    PerformedPrefix(cfg, ls, i, target);
    var start, ops := Performed(cfg, ls[..i], target), Performed(cfg, ls, target);
    assert ops[..|start|] == start;
  }

  lemma {:induction false} PerformedPrefix(cfg: Config, ls: seq<Label>, i: nat, target: string)
    requires i <= |ls|
    ensures Performed(cfg, ls[..i], target) <= Performed(cfg, ls, target)
  {
    if i < |ls| {
      assert ls[..|ls| - 1][..i] == ls[..i];
      PerformedPrefix(cfg, ls[..|ls| - 1], i, target);
    } else {
      assert ls[..i] == ls;
    }
  }

  /** And so does what is known of recovery: a circuit that is open at one instant of an interleaving and closed
      at the end, with no reset carried out in between, has half-opened with its timeout elapsed and has then seen
      exactly SuccessThreshold successes and no failure. */
  lemma ConcurrentRecovery(cfg: Config, ls: seq<Label>, i: nat, target: string, ops: seq<Op>, m: nat)
    requires CircuitTrace.ValidConfig(cfg) && Possible(cfg, ls) && i <= |ls|
    requires CircuitAt(After(cfg, ls[..i]), target).state == Open && CircuitAt(After(cfg, ls), target).state == Closed
    requires m == |Performed(cfg, ls[..i], target)| && ops == Performed(cfg, ls, target)
    requires forall k | m <= k < |ops| :: !ops[k].Reset?
    ensures exists f: nat, h: nat, s: nat :: CircuitTrace.RecoveredBetween(cfg, ops, m, |ops|, f, h, s)
  {
    PerformedBefore(cfg, ls, i, target);
    ConcurrentCircuit(cfg, ls, target);
    RecoveredRun(cfg, ops, m);
  }

  lemma RecoveredRun(cfg: Config, ops: seq<Op>, m: nat)
    requires CircuitTrace.ValidConfig(cfg) && m <= |ops|
    requires Before(cfg, ops, m).state == Open && Run(cfg, FRESH, ops).state == Closed
    requires forall k | m <= k < |ops| :: !ops[k].Reset?
    ensures exists f: nat, h: nat, s: nat :: CircuitTrace.RecoveredBetween(cfg, ops, m, |ops|, f, h, s)
  {
    assert ops[..|ops|] == ops;
    CircuitTrace.OpenToClosed(cfg, ops, m, |ops|);
  }

  /** Each step of an interleaving carries out at most one operation on a target, and takes its circuit from before
      that operation to after it, so that all that is known of the next state in a run is known of the next step. */
  lemma ConcurrentStep(cfg: Config, ls: seq<Label>, target: string, ops: seq<Op>, m: nat)
    requires ls != [] && Possible(cfg, ls)
    requires ops == Performed(cfg, ls, target) && m == |Performed(cfg, ls[..|ls| - 1], target)|
    ensures m <= |ops| <= m + 1
    ensures CircuitAt(After(cfg, ls[..|ls| - 1]), target) == Before(cfg, ops, m)
    ensures CircuitAt(After(cfg, ls), target) == Before(cfg, ops, |ops|)
  {
    PerformedBefore(cfg, ls, |ls| - 1, target);
    ConcurrentCircuit(cfg, ls, target);
    AtMostOneMore(cfg, ls, target);
    assert ops[..|ops|] == ops;
  }

  lemma AtMostOneMore(cfg: Config, ls: seq<Label>, target: string)
    requires ls != []
    ensures |Performed(cfg, ls, target)| <= |Performed(cfg, ls[..|ls| - 1], target)| + 1
  {
  }

  lemma OpeningAtLast(cfg: Config, ops: seq<Op>, mark: nat, m: nat)
    requires mark <= m <= |ops| <= m + 1 && Before(cfg, ops, m).state == Closed
    requires mark == 0 || CircuitTrace.ClearsFailures(ops[mark - 1])
    requires forall k | mark <= k < m :: !CircuitTrace.ClearsFailures(ops[k])
    ensures Before(cfg, ops, |ops|).state ==
            if m < |ops| && ops[m].Failure? && Count(IsFailure, ops[mark..]) >= cfg.failureThreshold then Open else Closed
  {
    if m < |ops| {
      assert ops[mark..m + 1] == ops[mark..];
      CircuitTrace.ClosedOpensAtThreshold(cfg, ops, mark, m);
    }
  }

  /** In every interleaving and configuration a closed circuit opens at the step that carries out the failure that
      makes FailureThreshold of them since the last success or reset, and at no other step. */
  lemma ConcurrentOpening(cfg: Config, ls: seq<Label>, target: string, ops: seq<Op>, m: nat, mark: nat)
    requires ls != [] && Possible(cfg, ls) && CircuitAt(After(cfg, ls[..|ls| - 1]), target).state == Closed
    requires ops == Performed(cfg, ls, target) && m == |Performed(cfg, ls[..|ls| - 1], target)|
    requires mark <= m <= |ops| && (mark == 0 || CircuitTrace.ClearsFailures(ops[mark - 1]))
    requires forall k | mark <= k < m :: !CircuitTrace.ClearsFailures(ops[k])
    ensures CircuitAt(After(cfg, ls), target).state ==
            if m < |ops| && ops[m].Failure? && Count(IsFailure, ops[mark..]) >= cfg.failureThreshold then Open else Closed
  {
    ConcurrentStep(cfg, ls, target, ops, m);
    OpeningAtLast(cfg, ops, mark, m);
  }
}
