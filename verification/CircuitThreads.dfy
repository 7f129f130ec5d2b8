/** Any number of threads calling one breaker. Every critical section is a step of its own, and so is the
    taking of a circuit's lock; Allow gives its read lock up and takes the write lock in between. */
module CircuitThreads {
  import opened CircuitMachine

  datatype Kind = AllowCall | SuccessCall | FailureCall | ResetCall | InfoCall

  datatype Request = Request(kind: Kind, target: string)

  datatype Answer = Nothing | Verdict(allowed: bool) | Report(circuit: Circuit)

  /** Where a thread stands in its call; `call` is the number of the step that made the call. */
  datatype Pc =
    | Idle
    | Lookup(req: Request, call: nat)                              // before reading the map
    | Missed(req: Request, call: nat)                              // saw no circuit; before the map's write lock
    | Ready(req: Request, call: nat, id: nat)                      // has the circuit; before the circuit's lock
    | Deciding(req: Request, call: nat, id: nat)                   // read lock held
    | Checking(req: Request, call: nat, id: nat)                   // read lock held; saw the Open state
    | Gap(req: Request, call: nat, id: nat)                        // will answer true; no lock held
    | Rechecking(req: Request, call: nat, id: nat)                 // write lock held
    | Downgrading(req: Request, call: nat, id: nat)                // write lock given up again
    | Leaving(req: Request, call: nat, id: nat, answer: Answer)    // read lock held
    | Writing(req: Request, call: nat, id: nat)                    // write lock held
    | Returning(req: Request, call: nat, answer: Answer)           // no lock held

  /** A finished call, as its caller saw it. */
  datatype Returned = Returned(req: Request, call: nat, ret: nat, answer: Answer)

  datatype System = System(
    step: nat, clock: int,
    circuits: map<string, nat>, heap: map<nat, Circuit>, next: nat,
    threads: map<nat, Pc>, log: seq<Returned>)

  const START := System(0, 0, map[], map[], 0, map[], [])

  datatype Label = Tick(now: int) | Call(thread: nat, req: Request) | Move(thread: nat)

  function PcOf(s: System, t: nat): Pc {
    if t in s.threads then s.threads[t] else Idle
  }

  function CircuitIn(s: System, id: nat): Circuit {
    if id in s.heap then s.heap[id] else FRESH
  }

  function CircuitAt(s: System, target: string): Circuit {
    if target in s.circuits then CircuitIn(s, s.circuits[target]) else FRESH
  }

  // ----- sync.RWMutex: who holds a circuit's lock follows from where the threads stand -----

  predicate HoldsRead(pc: Pc, id: nat) {
    (pc.Deciding? || pc.Checking? || pc.Leaving?) && pc.id == id
  }

  predicate HoldsWrite(pc: Pc, id: nat) {
    (pc.Rechecking? || pc.Writing?) && pc.id == id
  }

  predicate CanRead(s: System, id: nat) {
    forall t | t in s.threads :: !HoldsWrite(s.threads[t], id)
  }

  predicate CanWrite(s: System, id: nat) {
    forall t | t in s.threads :: !HoldsWrite(s.threads[t], id) && !HoldsRead(s.threads[t], id)
  }

  // ----- Steps -----

  predicate Enabled(s: System, l: Label) {
    match l
    case Tick(now) => now >= s.clock
    case Call(t, req) => PcOf(s, t) == Idle && req.target != ""
    case Move(t) =>
      (match PcOf(s, t)
       case Idle => false
       case Ready(req, _, id) => if req.kind.AllowCall? || req.kind.InfoCall? then CanRead(s, id) else CanWrite(s, id)
       case Gap(_, _, id) => CanWrite(s, id)
       case Downgrading(_, _, id) => CanRead(s, id)
       case _ => true)
  }

  function Goto(s: System, t: nat, pc: Pc): System {
    s.(threads := s.threads[t := pc])
  }

  function OpOf(kind: Kind, now: int): Op {
    match kind
    case AllowCall => Allow(now)
    case SuccessCall => Success(now)
    case FailureCall => Failure(now)
    case ResetCall => Reset(now)
    case InfoCall => Op.Read(now)
  }

  function MoveThread(cfg: Config, s: System, t: nat): System {
    match PcOf(s, t)
    case Idle => s
    case Lookup(req, call) =>
      if req.target in s.circuits then Goto(s, t, Ready(req, call, s.circuits[req.target]))
      else if req.kind.ResetCall? then Goto(s, t, Returning(req, call, Nothing))
      else if req.kind.InfoCall? then Goto(s, t, Returning(req, call, Report(FRESH)))
      else Goto(s, t, Missed(req, call))
    case Missed(req, call) =>
      if req.target in s.circuits then Goto(s, t, Ready(req, call, s.circuits[req.target]))
      else Goto(s, t, Ready(req, call, s.next)).(
        circuits := s.circuits[req.target := s.next], heap := s.heap[s.next := FRESH], next := s.next + 1)
    case Ready(req, call, id) =>
      if req.kind.AllowCall? || req.kind.InfoCall? then Goto(s, t, Deciding(req, call, id))
      else Goto(s, t, Writing(req, call, id))
    case Deciding(req, call, id) =>
      var c := CircuitIn(s, id);
      if req.kind.InfoCall? then Goto(s, t, Leaving(req, call, id, Report(c)))
      else (match c.state
            case Closed => Goto(s, t, Leaving(req, call, id, Verdict(true)))
            case Open => Goto(s, t, Checking(req, call, id))
            case HalfOpen => Goto(s, t, Leaving(req, call, id, Verdict(c.halfOpenRequests < cfg.maxRequests))))
    case Checking(req, call, id) =>
      if TimedOut(cfg, CircuitIn(s, id), s.clock) then Goto(s, t, Gap(req, call, id))
      else Goto(s, t, Leaving(req, call, id, Verdict(false)))
    case Gap(req, call, id) => Goto(s, t, Rechecking(req, call, id))
    case Rechecking(req, call, id) =>
      Goto(s, t, Downgrading(req, call, id)).(heap := s.heap[id := TryHalfOpen(cfg, CircuitIn(s, id), s.clock)])
    case Downgrading(req, call, id) => Goto(s, t, Leaving(req, call, id, Verdict(true)))
    case Leaving(req, call, id, answer) =>
      Goto(s, t, Idle).(log := s.log + [Returned(req, call, s.step, answer)])
    case Writing(req, call, id) =>
      Goto(s, t, Returning(req, call, Nothing)).(
        heap := s.heap[id := Step(cfg, CircuitIn(s, id), OpOf(req.kind, s.clock))])
    case Returning(req, call, answer) =>
      Goto(s, t, Idle).(log := s.log + [Returned(req, call, s.step, answer)])
  }

  function Apply(cfg: Config, s: System, l: Label): System {
    var s' := (match l
               case Tick(now) => s.(clock := now)
               case Call(t, req) => Goto(s, t, Lookup(req, s.step))
               case Move(t) => MoveThread(cfg, s, t));
    s'.(step := s.step + 1)
  }

  /** The system after the labels, taken in order; the labels must be possible. */
  function After(cfg: Config, ls: seq<Label>): System
    decreases |ls|
  {
    if ls == [] then START else Apply(cfg, After(cfg, ls[..|ls| - 1]), ls[|ls| - 1])
  }

  predicate Possible(cfg: Config, ls: seq<Label>) {
    forall i | 0 <= i < |ls| :: Enabled(After(cfg, ls[..i]), ls[i])
  }

  lemma PossiblePrefix(cfg: Config, ls: seq<Label>, i: nat)
    requires Possible(cfg, ls) && i <= |ls|
    ensures Possible(cfg, ls[..i])
  {
    forall k | 0 <= k < i ensures Enabled(After(cfg, ls[..i][..k]), ls[..i][k]) {
      assert ls[..i][..k] == ls[..k];
    }
  }

  // ----- What every interleaving keeps -----

  predicate Bound(s: System, target: string, id: nat) {
    target in s.circuits && s.circuits[target] == id
  }

  predicate PcSound(s: System, pc: Pc) {
    match pc
    case Idle => true
    case Lookup(req, call) => call < s.step && req.target != ""
    case Missed(req, call) => call < s.step && req.target != "" && !req.kind.ResetCall? && !req.kind.InfoCall?
    case Ready(req, call, id) => call < s.step && Bound(s, req.target, id)
    case Deciding(req, call, id) =>
      call < s.step && Bound(s, req.target, id) && (req.kind.AllowCall? || req.kind.InfoCall?)
    case Checking(req, call, id) =>
      call < s.step && Bound(s, req.target, id) && req.kind.AllowCall? && CircuitIn(s, id).state == Open
    case Gap(req, call, id) => call < s.step && Bound(s, req.target, id) && req.kind.AllowCall?
    case Rechecking(req, call, id) => call < s.step && Bound(s, req.target, id) && req.kind.AllowCall?
    case Downgrading(req, call, id) => call < s.step && Bound(s, req.target, id) && req.kind.AllowCall?
    case Leaving(req, call, id, _) => call < s.step && Bound(s, req.target, id)
    case Writing(req, call, id) =>
      call < s.step && Bound(s, req.target, id) && !req.kind.AllowCall? && !req.kind.InfoCall?
    case Returning(req, call, _) => call < s.step
  }

  /** Distinct targets have distinct circuit objects, all made already. */
  predicate MapSound(s: System) {
    && (forall t | t in s.circuits :: s.circuits[t] < s.next && t != "")
    && (forall t, u | t in s.circuits && u in s.circuits && t != u :: s.circuits[t] != s.circuits[u])
    && (forall id | id in s.heap :: id < s.next)
  }

  predicate Compatible(p: Pc, q: Pc) {
    p.Rechecking? || p.Writing? ==> !HoldsWrite(q, p.id) && !HoldsRead(q, p.id)
  }

  /** A thread with a circuit's write lock is alone with it. */
  predicate Exclusive(s: System) {
    forall t, u | t in s.threads && u in s.threads && t != u :: Compatible(s.threads[t], s.threads[u])
  }

  /** A step makes at most one call, so its number names the call. */
  predicate CallsDistinct(s: System) {
    && (forall t, u | t in s.threads && u in s.threads && t != u && !s.threads[t].Idle? && !s.threads[u].Idle? ::
          s.threads[t].call != s.threads[u].call)
    && (forall t, d | t in s.threads && d in s.log && !s.threads[t].Idle? :: s.threads[t].call != d.call)
    && (forall d | d in s.log :: d.call < d.ret < s.step)
  }

  ghost predicate Sound(s: System) {
    && MapSound(s) && Exclusive(s) && CallsDistinct(s)
    && forall t | t in s.threads :: PcSound(s, s.threads[t])
  }

  lemma SoundKept(cfg: Config, s: System, l: Label)
    requires Sound(s) && Enabled(s, l)
    ensures Sound(Apply(cfg, s, l))
  {
    MapKept(cfg, s, l);
    var s' := Apply(cfg, s, l);
    if !l.Tick? {
      ShapeOf(cfg, s, l);
      ExclusiveKept(s, s', l.thread);
      CallsKept(s, s', l.thread);
      MovedPcKept(cfg, s, l);
    }
    forall t | t in s'.threads ensures PcSound(s', s'.threads[t]) {
      if l.Tick? || t != l.thread { OtherPcKept(cfg, s, l, t); }
    }
  }

  lemma MapKept(cfg: Config, s: System, l: Label)
    requires Sound(s) && Enabled(s, l)
    ensures var s' := Apply(cfg, s, l);
            && MapSound(s') && s.next <= s'.next
            && (forall t | t in s.circuits :: t in s'.circuits && s'.circuits[t] == s.circuits[t])
  {
    if l.Move? && l.thread in s.threads { assert PcSound(s, s.threads[l.thread]); }
  }

  /** What a step does to threads and log: the moving thread alone changes place, keeping its call until
      it returns, and it gains a lock only when the lock is free for it. */
  ghost predicate Shape(s: System, s': System, t: nat) {
    var p, q := PcOf(s, t), PcOf(s', t);
    && s'.step == s.step + 1 && s'.threads == s.threads[t := q]
    && (p.Idle? ==> !q.Idle? && q.call == s.step && s'.log == s.log)
    && (!p.Idle? && !q.Idle? ==> q.call == p.call && q.req == p.req && s'.log == s.log)
    && (!p.Idle? && q.Idle? ==> exists a :: s'.log == s.log + [Returned(p.req, p.call, s.step, a)])
    && LocksFree(s, p, q)
  }

  predicate LocksFree(s: System, p: Pc, q: Pc) {
    && (q.Rechecking? || q.Writing? ==> CanWrite(s, q.id))
    && (q.Deciding? || q.Checking? || q.Leaving? ==> HoldsRead(p, q.id) || CanRead(s, q.id))
  }

  lemma LocksFreeFor(cfg: Config, s: System, l: Label)
    requires !l.Tick? && Enabled(s, l)
    ensures LocksFree(s, PcOf(s, l.thread), PcOf(Apply(cfg, s, l), l.thread))
  {
  }

  lemma ShapeOf(cfg: Config, s: System, l: Label)
    requires !l.Tick? && Enabled(s, l)
    ensures Shape(s, Apply(cfg, s, l), l.thread)
  {
    LocksFreeFor(cfg, s, l);
    if l.Move? {
      var pc, s' := PcOf(s, l.thread), Apply(cfg, s, l);
      if pc.Leaving? || pc.Returning? {
        assert s'.log == s.log + [Returned(pc.req, pc.call, s.step, pc.answer)];
      }
    }
  }

  lemma ExclusiveKept(s: System, s': System, t: nat)
    requires Exclusive(s) && Shape(s, s', t)
    ensures Exclusive(s')
  {
  }

  lemma CallsKept(s: System, s': System, t: nat)
    requires Sound(s) && Shape(s, s', t)
    ensures CallsDistinct(s')
  {
    if t in s.threads { assert PcSound(s, s.threads[t]); }
    forall u | u in s'.threads && !s'.threads[u].Idle?
      ensures s'.threads[u].call <= s.step && forall d | d in s'.log :: s'.threads[u].call != d.call
    {
      if u in s.threads { assert PcSound(s, s.threads[u]); }
    }
  }

  /** Only a thread with the write lock changes a circuit. */
  lemma CircuitsUnderLock(cfg: Config, s: System, l: Label, id: nat)
    requires Sound(s) && Enabled(s, l)
    ensures CircuitIn(Apply(cfg, s, l), id) != CircuitIn(s, id) ==> l.Move? && HoldsWrite(PcOf(s, l.thread), id)
  {
  }

  lemma MovedPcKept(cfg: Config, s: System, l: Label)
    requires Sound(s) && Enabled(s, l) && !l.Tick?
    ensures PcSound(Apply(cfg, s, l), PcOf(Apply(cfg, s, l), l.thread))
  {
    if l.Move? { assert PcSound(s, s.threads[l.thread]); }
  }

  lemma OtherPcKept(cfg: Config, s: System, l: Label, t: nat)
    requires Sound(s) && Enabled(s, l) && t in s.threads
    requires l.Tick? || t != l.thread
    ensures PcSound(Apply(cfg, s, l), s.threads[t])
  {
    MapKept(cfg, s, l);
    var pc := s.threads[t];
    assert PcSound(s, pc);
    if pc.Checking? {
      CircuitsUnderLock(cfg, s, l, pc.id);
      if l.Move? && l.thread in s.threads { assert Compatible(s.threads[l.thread], pc); }
    }
  }

  // ----- Reachable systems -----

  ghost predicate Reachable(cfg: Config, s: System) {
    exists ls :: Possible(cfg, ls) && After(cfg, ls) == s
  }

  lemma Reach(cfg: Config, s: System, l: Label)
    requires Reachable(cfg, s) && Enabled(s, l)
    ensures Reachable(cfg, Apply(cfg, s, l))
  {
    var ls :| Possible(cfg, ls) && After(cfg, ls) == s;
    var ls' := ls + [l];
    assert ls'[..|ls|] == ls;
    forall i | 0 <= i < |ls'| ensures Enabled(After(cfg, ls'[..i]), ls'[i]) {
      if i < |ls| { assert ls'[..i] == ls[..i]; }
    }
    assert Possible(cfg, ls') && After(cfg, ls') == Apply(cfg, s, l);
  }

  lemma {:induction false} AlwaysSound(cfg: Config, ls: seq<Label>)
    requires Possible(cfg, ls)
    ensures Sound(After(cfg, ls))
  {
    if ls != [] {
      var n := |ls| - 1;
      PossiblePrefix(cfg, ls, n);
      AlwaysSound(cfg, ls[..n]);
      SoundKept(cfg, After(cfg, ls[..n]), ls[n]);
    }
  }

  predicate HasCircuit(pc: Pc) {
    !pc.Idle? && !pc.Lookup? && !pc.Missed? && !pc.Returning?
  }

  lemma OneCircuitNow(s: System, t: nat, target: string)
    requires Sound(s) && t in s.threads && HasCircuit(s.threads[t]) && target in s.circuits
    ensures s.threads[t].id == s.circuits[target] <==> s.threads[t].req.target == target
  {
    assert PcSound(s, s.threads[t]);
  }

  /** Double-checked creation: once a target has a circuit it keeps that one for good, whatever the
      interleaving, and the threads at work on that circuit are those that were called for the target. */
  lemma {:induction false} OneCircuitPerTarget(cfg: Config, ls: seq<Label>, i: nat, target: string)
    requires Possible(cfg, ls) && i <= |ls|
    requires target in After(cfg, ls[..i]).circuits
    ensures Bound(After(cfg, ls), target, After(cfg, ls[..i]).circuits[target])
    ensures forall t | t in After(cfg, ls).threads && HasCircuit(After(cfg, ls).threads[t]) ::
              After(cfg, ls).threads[t].id == After(cfg, ls[..i]).circuits[target]
              <==> After(cfg, ls).threads[t].req.target == target
  {
    var s := After(cfg, ls);
    AlwaysSound(cfg, ls);
    BindingKept(cfg, ls, i, target, After(cfg, ls[..i]).circuits[target]);
    forall t | t in s.threads && HasCircuit(s.threads[t])
      ensures s.threads[t].id == s.circuits[target] <==> s.threads[t].req.target == target
    {
      OneCircuitNow(s, t, target);
    }
  }

  lemma BindingStep(cfg: Config, s: System, l: Label, target: string, id: nat)
    requires Bound(s, target, id)
    ensures Bound(Apply(cfg, s, l), target, id)
  {
  }

  lemma {:induction false} BindingKept(cfg: Config, ls: seq<Label>, i: nat, target: string, id: nat)
    requires i <= |ls| && Bound(After(cfg, ls[..i]), target, id)
    ensures Bound(After(cfg, ls), target, id)
  {
    if i == |ls| {
      assert ls[..i] == ls;
    } else {
      var n := |ls| - 1;
      assert ls[..n][..i] == ls[..i];
      BindingKept(cfg, ls[..n], i, target, id);
      BindingStep(cfg, After(cfg, ls[..n]), ls[n], target, id);
    }
  }

  predicate Writes(s: System, l: Label, target: string, kind: Kind) {
    l.Move? && PcOf(s, l.thread).Writing? && PcOf(s, l.thread).req == Request(kind, target)
  }

  /** A failure time is in the past, and an open circuit has one. */
  predicate DatedCircuit(c: Circuit, now: int) {
    (c.lastFailure.At? ==> c.lastFailure.ns <= now) && (c.state == Open ==> c.lastFailure.At?)
  }

  predicate Dated(s: System) {
    forall id | id in s.heap :: DatedCircuit(s.heap[id], s.clock)
  }

  lemma DatedStep(cfg: Config, c: Circuit, op: Op)
    requires DatedCircuit(c, op.now)
    ensures DatedCircuit(Step(cfg, c, op), op.now)
  {
  }

  lemma DatedKept(cfg: Config, s: System, l: Label)
    requires Dated(s) && Enabled(s, l)
    ensures Dated(Apply(cfg, s, l))
  {
    if l.Move? {
      var pc := PcOf(s, l.thread);
      if pc.Writing? { DatedStep(cfg, CircuitIn(s, pc.id), OpOf(pc.req.kind, s.clock)); }
      if pc.Rechecking? { DatedStep(cfg, CircuitIn(s, pc.id), Allow(s.clock)); }
    }
  }

  lemma {:induction false} AlwaysDated(cfg: Config, ls: seq<Label>)
    requires Possible(cfg, ls)
    ensures Dated(After(cfg, ls))
  {
    if ls != [] {
      var n := |ls| - 1;
      PossiblePrefix(cfg, ls, n);
      AlwaysDated(cfg, ls[..n]);
      DatedKept(cfg, After(cfg, ls[..n]), ls[n]);
    }
  }

  /** What one step may make of a circuit. */
  ghost predicate Progress(cfg: Config, s: System, l: Label, target: string, c: Circuit, d: Circuit) {
    && (c.state != HalfOpen && d.state == HalfOpen ==>
          c.state == Open && c.lastFailure.At? && s.clock - c.lastFailure.ns >= cfg.timeout)
    && (c.state == HalfOpen && (d.state == Open || d.successes < c.successes) ==>
          Writes(s, l, target, FailureCall) || Writes(s, l, target, ResetCall))
    && (c.state == HalfOpen && d.state == Closed ==>
          || Writes(s, l, target, ResetCall)
          || (Writes(s, l, target, SuccessCall) && d.successes >= cfg.successThreshold))
  }

  predicate Rechecks(s: System, l: Label, target: string) {
    l.Move? && PcOf(s, l.thread).Rechecking? && PcOf(s, l.thread).req.target == target
  }

  predicate HasWriteLock(pc: Pc) { pc.Writing? || pc.Rechecking? }

  lemma WriterStep(cfg: Config, s: System, t: nat, target: string)
    requires Sound(s) && Enabled(s, Move(t)) && HasWriteLock(PcOf(s, t))
    ensures var c, pc := CircuitAt(s, target), PcOf(s, t);
            CircuitAt(Apply(cfg, s, Move(t)), target) ==
            if pc.req.target != target then c
            else if pc.Writing? then Step(cfg, c, OpOf(pc.req.kind, s.clock))
            else TryHalfOpen(cfg, c, s.clock)
  {
    assert PcSound(s, s.threads[t]);
  }

  lemma ReaderStep(cfg: Config, s: System, l: Label, target: string)
    requires Sound(s) && Enabled(s, l) && !(l.Move? && HasWriteLock(PcOf(s, l.thread)))
    ensures CircuitAt(Apply(cfg, s, l), target) == CircuitAt(s, target)
  {
    MapKept(cfg, s, l);
  }

  /** Exactly what one step makes of a circuit: a report that has the write lock carries out its operation, an Allow
      that has it half-opens the circuit if that is still due, and no other step changes anything. */
  lemma OneStepProgress(cfg: Config, s: System, l: Label, target: string, d: Circuit)
    requires Sound(s) && Enabled(s, l) && d == CircuitAt(Apply(cfg, s, l), target)
    ensures var c := CircuitAt(s, target);
            d == if Writes(s, l, target, SuccessCall) then Step(cfg, c, Success(s.clock))
                 else if Writes(s, l, target, FailureCall) then Step(cfg, c, Failure(s.clock))
                 else if Writes(s, l, target, ResetCall) then FRESH
                 else if Rechecks(s, l, target) then TryHalfOpen(cfg, c, s.clock)
                 else c
  {
    if l.Move? && HasWriteLock(PcOf(s, l.thread)) {
      WriterStep(cfg, s, l.thread, target);
      assert PcSound(s, s.threads[l.thread]);
    } else {
      ReaderStep(cfg, s, l, target);
    }
  }

  lemma ProgressCases(cfg: Config, s: System, l: Label, target: string, d: Circuit)
    requires Sound(s) && Dated(s) && Enabled(s, l) && d == CircuitAt(Apply(cfg, s, l), target)
    ensures Progress(cfg, s, l, target, CircuitAt(s, target), d)
  {
    OneStepProgress(cfg, s, l, target, d);
    if target in s.circuits { assert DatedCircuit(CircuitIn(s, s.circuits[target]), s.clock); }
    if CircuitAt(s, target).lastFailure.At? { SinceIsElapsed(CircuitAt(s, target).lastFailure.ns, s.clock, cfg.timeout); }
  }

  /** In every interleaving, and for every configuration: a circuit half-opens only with its timeout elapsed
      at that very instant; while it is half-open it loses successes or reopens only through a failure or
      a reset; and it closes only through a reset or enough successes. */
  lemma DelayedAllowKeepsProgress(cfg: Config, s: System, l: Label, target: string)
    requires Reachable(cfg, s) && Enabled(s, l)
    ensures Progress(cfg, s, l, target, CircuitAt(s, target), CircuitAt(Apply(cfg, s, l), target))
  {
    ReachableSound(cfg, s);
    ProgressCases(cfg, s, l, target, CircuitAt(Apply(cfg, s, l), target));
  }

  lemma ReachableSound(cfg: Config, s: System)
    requires Reachable(cfg, s)
    ensures Sound(s) && Dated(s)
  {
    var ls :| Possible(cfg, ls) && After(cfg, ls) == s;
    AlwaysSound(cfg, ls);
    AlwaysDated(cfg, ls);
  }

  // ----- No call gets stuck -----

  predicate WantsWrite(pc: Pc) {
    pc.Gap? || (pc.Ready? && !pc.req.kind.AllowCall? && !pc.req.kind.InfoCall?)
  }

  predicate WantsRead(pc: Pc) {
    pc.Downgrading? || (pc.Ready? && (pc.req.kind.AllowCall? || pc.req.kind.InfoCall?))
  }

  /** A thread can move, even if waiting writers keep new readers out, as those of sync.RWMutex do. */
  predicate MovesInTurn(s: System, t: nat) {
    && t in s.threads && Enabled(s, Move(t))
    && (WantsRead(s.threads[t]) ==>
          forall u | u in s.threads && WantsWrite(s.threads[u]) :: s.threads[u].id != s.threads[t].id)
  }

  /** While any call is under way, some call can go on: giving the read lock up for the write lock and taking it
      back cannot lead to a deadlock. */
  lemma SomeCallGoesOn(s: System, t: nat)
    requires t in s.threads && !s.threads[t].Idle?
    ensures exists u :: MovesInTurn(s, u)
  {
    if u :| u in s.threads && !s.threads[u].Idle? && !WantsRead(s.threads[u]) && !WantsWrite(s.threads[u]) {
      assert MovesInTurn(s, u);
    } else if u :| u in s.threads && WantsWrite(s.threads[u]) {
      assert MovesInTurn(s, u);
    } else {
      assert MovesInTurn(s, t);
    }
  }

  /** How many moves a call has before it at most. */
  function MovesLeft(pc: Pc): nat {
    match pc
    case Idle => 0
    case Lookup(_, _) => 9
    case Missed(_, _) => 8
    case Ready(_, _, _) => 7
    case Deciding(_, _, _) => 6
    case Checking(_, _, _) => 5
    case Gap(_, _, _) => 4
    case Rechecking(_, _, _) => 3
    case Downgrading(_, _, _) => 2
    case Writing(_, _, _) => 2
    case Leaving(_, _, _, _) => 1
    case Returning(_, _, _) => 1
  }

  /** Every move brings its own call closer to its return, for good; so a call returns after at most nine of them. */
  lemma EveryMoveCounts(cfg: Config, s: System, l: Label, t: nat)
    requires Enabled(s, l) && !PcOf(s, t).Idle?
    ensures if l == Move(t) then MovesLeft(PcOf(Apply(cfg, s, l), t)) < MovesLeft(PcOf(s, t))
            else PcOf(Apply(cfg, s, l), t) == PcOf(s, t)
  {
  }
}
