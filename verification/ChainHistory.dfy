/** Every sequence of NewChain, Use and Append over shared backing arrays, compared with the same operations on
    lists that cannot change. */
module ChainHistory {
  import opened MiddlewareChains

  /** A chain value: the array it sees, how much of it, and whether Use has been called on it. */
  datatype ChainRef = ChainRef(buf: nat, len: nat, used: bool)

  /** The arrays, each as long as its capacity, and the chains made so far. */
  datatype World = World(bufs: seq<seq<Middleware>>, chains: seq<ChainRef>)

  const EMPTY := World([], [])

  datatype Op =
    | NewChain(ms: seq<Middleware>, spare: seq<Middleware>)
    | Use(chain: nat, m: Middleware, spare: seq<Middleware>)
    | Append(chain: nat, ms: seq<Middleware>)

  predicate WellFormed(w: World) {
    forall i | 0 <= i < |w.chains| :: w.chains[i].buf < |w.bufs| && w.chains[i].len <= |w.bufs[w.chains[i].buf]|
  }

  predicate Applicable(w: World, op: Op) {
    (op.Use? || op.Append?) ==> op.chain < |w.chains|
  }

  function List(w: World, i: nat): seq<Middleware>
    requires WellFormed(w) && i < |w.chains|
  {
    w.bufs[w.chains[i].buf][..w.chains[i].len]
  }

  predicate HasSpare(w: World, i: nat)
    requires WellFormed(w) && i < |w.chains|
  {
    w.chains[i].len < |w.bufs[w.chains[i].buf]|
  }

  /** A chain on an array of its own, with `spare` standing for the cells beyond its length. */
  function OnFreshArray(w: World, ms: seq<Middleware>, spare: seq<Middleware>): World {
    World(w.bufs + [ms + spare], w.chains + [ChainRef(|w.bufs|, |ms|, false)])
  }

  function MarkUsed(w: World, i: nat): World
    requires i < |w.chains|
  {
    w.(chains := w.chains[i := w.chains[i].(used := true)])
  }

  function Apply(w: World, op: Op): (r: World)
    requires WellFormed(w) && Applicable(w, op)
    ensures WellFormed(r) && |r.chains| == |w.chains| + 1
  {
    match op
    case NewChain(ms, spare) => OnFreshArray(w, ms, if ms == [] then [] else spare)
    case Append(i, ms) => OnFreshArray(w, List(w, i) + ms, [])
    case Use(i, m, spare) =>
      if HasSpare(w, i) then
        var c := w.chains[i];
        World(w.bufs[c.buf := w.bufs[c.buf][c.len := m]],
              MarkUsed(w, i).chains + [ChainRef(c.buf, c.len + 1, false)])
      else OnFreshArray(MarkUsed(w, i), List(w, i) + [m], spare)
  }

  // ----- The lists a user has in mind -----

  function PureApply(lists: seq<seq<Middleware>>, op: Op): seq<seq<Middleware>> {
    match op
    case NewChain(ms, _) => lists + [ms]
    case Use(i, m, _) => lists + [(if i < |lists| then lists[i] else []) + [m]]
    case Append(i, ms) => lists + [(if i < |lists| then lists[i] else []) + ms]
  }

  function Lists(w: World): seq<seq<Middleware>>
    requires WellFormed(w)
  {
    seq(|w.chains|, i requires 0 <= i < |w.chains| => List(w, i))
  }

  // ----- Exactly what one Use can do to the other chains -----

  /** A Use shows in another chain's list exactly when that chain sees the spare cell it writes, and it
      held something else. */
  lemma UseIsSeenBy(w: World, i: nat, m: Middleware, spare: seq<Middleware>, j: nat)
    requires WellFormed(w) && i < |w.chains| && j < |w.chains|
    ensures List(Apply(w, Use(i, m, spare)), j) != List(w, j)
            <==> w.chains[i].buf == w.chains[j].buf && w.chains[i].len < w.chains[j].len
                 && w.bufs[w.chains[i].buf][w.chains[i].len] != m
  {
    var c, d, w' := w.chains[i], w.chains[j], Apply(w, Use(i, m, spare));
    if c.buf == d.buf && c.len < d.len {
      assert List(w', j)[c.len] == m && List(w, j)[c.len] == w.bufs[c.buf][c.len];
      if w.bufs[c.buf][c.len] == m { assert List(w', j) == List(w, j); }
    } else {
      assert List(w', j) == List(w, j);
    }
  }

  /** Two Use calls on one chain: the first result keeps its list exactly when there was no spare capacity to
      share, or both added the same middleware. Otherwise it ends in the middleware of the second. */
  lemma SecondUseClobbers(w: World, i: nat, m: Middleware, n: Middleware, s: seq<Middleware>, t: seq<Middleware>)
    requires WellFormed(w) && i < |w.chains|
    ensures var w' := Apply(w, Use(i, m, s));
            var w'' := Apply(w', Use(i, n, t));
            && List(w', |w.chains|) == List(w, i) + [m]
            && (List(w'', |w.chains|) == List(w', |w.chains|) <==> !HasSpare(w, i) || m == n)
            && (HasSpare(w, i) ==> List(w'', |w.chains|) == List(w, i) + [n])
  {
    var w' := Apply(w, Use(i, m, s));
    assert List(w', |w.chains|) == List(w, i) + [m];
    UseIsSeenBy(w', i, n, t, |w.chains|);
    if HasSpare(w, i) {
      assert List(Apply(w', Use(i, n, t)), |w.chains|) == List(w, i) + [n];
    }
  }

  // ----- One Use per chain -----

  /** Of the chains on an array at most one is unused, and it sees as much of the array as any. */
  predicate Tips(w: World) {
    forall i, j | 0 <= i < |w.chains| && 0 <= j < |w.chains| && i != j && w.chains[i].buf == w.chains[j].buf
                  && !w.chains[i].used ::
      w.chains[j].used && w.chains[j].len <= w.chains[i].len
  }

  predicate Disciplined(w: World, op: Op)
    requires Applicable(w, op)
  {
    op.Use? ==> !w.chains[op.chain].used
  }

  lemma TipsKept(w: World, op: Op)
    requires WellFormed(w) && Tips(w) && Applicable(w, op) && Disciplined(w, op)
    ensures Tips(Apply(w, op))
  {
  }

  lemma StepRefines(w: World, op: Op)
    requires WellFormed(w) && Tips(w) && Applicable(w, op) && Disciplined(w, op)
    ensures Lists(Apply(w, op)) == PureApply(Lists(w), op)
  {
    var w' := Apply(w, op);
    forall j | 0 <= j < |w.chains| ensures List(w', j) == List(w, j) {
      if op.Use? { UseIsSeenBy(w, op.chain, op.m, op.spare, j); }
    }
    assert List(w', |w.chains|) == PureApply(Lists(w), op)[|w.chains|];
  }

  /** The world after the operations, as long as each could be carried out. */
  ghost predicate Runs(ops: seq<Op>, w: World)
    decreases |ops|
  {
    if ops == [] then w == EMPTY
    else exists v :: Runs(ops[..|ops| - 1], v) && WellFormed(v) && Applicable(v, ops[|ops| - 1])
                     && w == Apply(v, ops[|ops| - 1])
  }

  /** No chain is the receiver of Use twice. */
  predicate UsesOnce(ops: seq<Op>) {
    forall i, j | 0 <= i < j < |ops| && ops[i].Use? && ops[j].Use? :: ops[i].chain != ops[j].chain
  }

  function PureLists(ops: seq<Op>): seq<seq<Middleware>> {
    if ops == [] then [] else PureApply(PureLists(ops[..|ops| - 1]), ops[|ops| - 1])
  }

  predicate UsedBy(ops: seq<Op>, k: nat) {
    exists i :: 0 <= i < |ops| && ops[i].Use? && ops[i].chain == k
  }

  lemma UsedByMore(ops: seq<Op>, op: Op, k: nat)
    ensures UsedBy(ops, k) ==> UsedBy(ops + [op], k)
    ensures op.Use? ==> UsedBy(ops + [op], op.chain)
  {
    if UsedBy(ops, k) {
      var i :| 0 <= i < |ops| && ops[i].Use? && ops[i].chain == k;
      assert (ops + [op])[i] == ops[i];
    }
    assert (ops + [op])[|ops|] == op;
  }

  lemma UsedStep(init: seq<Op>, op: Op, v: World)
    requires WellFormed(v) && Applicable(v, op)
    requires forall k | 0 <= k < |v.chains| && v.chains[k].used :: UsedBy(init, k)
    ensures var w := Apply(v, op);
            forall k | 0 <= k < |w.chains| && w.chains[k].used :: UsedBy(init + [op], k)
  {
    var w := Apply(v, op);
    forall k | 0 <= k < |w.chains| && w.chains[k].used ensures UsedBy(init + [op], k) {
      UsedByMore(init, op, k);
    }
  }

  lemma {:induction false} UsedOnlyByUse(ops: seq<Op>, w: World)
    requires Runs(ops, w)
    ensures WellFormed(w)
    ensures forall k | 0 <= k < |w.chains| && w.chains[k].used :: UsedBy(ops, k)
    decreases |ops|
  {
    if ops != [] {
      var init, op := ops[..|ops| - 1], ops[|ops| - 1];
      assert ops == init + [op];
      var v :| Runs(init, v) && WellFormed(v) && Applicable(v, op) && w == Apply(v, op);
      UsedOnlyByUse(init, v);
      UsedStep(init, op, v);
    }
  }

  lemma FreshReceiver(ops: seq<Op>, v: World)
    requires ops != [] && Runs(ops[..|ops| - 1], v) && UsesOnce(ops) && ops[|ops| - 1].Use?
    requires ops[|ops| - 1].chain < |v.chains|
    ensures !v.chains[ops[|ops| - 1].chain].used
  {
    var n := |ops| - 1;
    UsedOnlyByUse(ops[..n], v);
    assert v.chains[ops[n].chain].used ==> UsedBy(ops[..n], ops[n].chain);
    assert forall i | 0 <= i < n && ops[..n][i].Use? :: ops[..n][i] == ops[i] && ops[i].chain != ops[n].chain;
  }

  /** If Use is called at most once on each chain value, sharing arrays cannot be noticed: after any sequence of
      operations every chain's list is the one it was created with. */
  lemma {:induction false} ChainsAreImmutable(ops: seq<Op>, w: World)
    requires Runs(ops, w) && UsesOnce(ops)
    ensures WellFormed(w) && Tips(w) && Lists(w) == PureLists(ops)
    decreases |ops|
  {
    if ops == [] {
      assert Lists(EMPTY) == [];
    } else {
      var n := |ops| - 1;
      var v :| Runs(ops[..n], v) && WellFormed(v) && Applicable(v, ops[n]) && w == Apply(v, ops[n]);
      ChainsAreImmutable(ops[..n], v);
      if ops[n].Use? { FreshReceiver(ops, v); }
      TipsKept(v, ops[n]);
      StepRefines(v, ops[n]);
    }
  }

  /** Append never shares storage with an older chain, and neither does NewChain. */
  lemma AppendNeverShares(w: World, op: Op, j: nat)
    requires WellFormed(w) && Applicable(w, op) && !op.Use? && j < |w.chains|
    ensures Apply(w, op).chains[|w.chains|].buf != Apply(w, op).chains[j].buf
    ensures List(Apply(w, op), j) == List(w, j)
  {
  }

  // ----- The operations on the heap are these operations -----

  /** The heap as a world: `arrays` holds the backing arrays, `chains` the chain objects made so far. */
  ghost predicate Represents(arrays: seq<array<Middleware>>, chains: seq<Chain>, w: World)
    reads arrays
  {
    && |arrays| == |w.bufs| && |chains| == |w.chains| && WellFormed(w)
    && (forall k, l | 0 <= k < l < |arrays| :: arrays[k] != arrays[l])
    && (forall k | 0 <= k < |arrays| :: arrays[k][..] == w.bufs[k])
    && (forall i | 0 <= i < |chains| ::
          chains[i].middlewares.buf == arrays[w.chains[i].buf] && chains[i].middlewares.len == w.chains[i].len)
  }

  lemma ChainMeansList(arrays: seq<array<Middleware>>, chains: seq<Chain>, w: World, i: nat)
    requires Represents(arrays, chains, w) && i < |chains|
    ensures chains[i].Valid() && chains[i].Contents() == List(w, i)
    ensures chains[i].middlewares.len < chains[i].middlewares.buf.Length <==> HasSpare(w, i)
  {
    assert chains[i].middlewares.buf[..] == w.bufs[w.chains[i].buf];
  }

  /** Chain.Use is Apply, with the cells that a new array has beyond its length as the spare ones. */
  method UseOnHeap(arrays: seq<array<Middleware>>, chains: seq<Chain>, ghost w: World,
                   i: nat, m: Middleware, spare: nat)
    returns (c: Chain, ghost cells: seq<Middleware>)
    requires Represents(arrays, chains, w) && i < |chains|
    modifies arrays[w.chains[i].buf]
    ensures |cells| == spare
    ensures HasSpare(w, i) ==> Represents(arrays, chains + [c], Apply(w, Use(i, m, cells)))
    ensures !HasSpare(w, i) ==> Represents(arrays + [c.middlewares.buf], chains + [c], Apply(w, Use(i, m, cells)))
  {
    ChainMeansList(arrays, chains, w, i);
    ghost var b, len := w.chains[i].buf, w.chains[i].len;
    c := chains[i].Use(m, spare);
    if HasSpare(w, i) {
      cells := seq(spare, _ => m);
      assert arrays[b][..] == w.bufs[b][len := m];
      assert forall k | 0 <= k < |arrays| && k != b :: arrays[k][..] == w.bufs[k];
    } else {
      cells := c.middlewares.buf[len + 1..];
      assert c.middlewares.buf[..] == c.middlewares.buf[..len + 1] + cells;
      assert forall k | 0 <= k < |arrays| :: arrays[k][..] == w.bufs[k];
    }
  }

  /** Chain.Append is Apply. */
  method AppendOnHeap(arrays: seq<array<Middleware>>, chains: seq<Chain>, ghost w: World, i: nat, ms: seq<Middleware>)
    returns (c: Chain)
    requires Represents(arrays, chains, w) && i < |chains|
    ensures Represents(arrays + [c.middlewares.buf], chains + [c], Apply(w, Append(i, ms)))
  {
    ChainMeansList(arrays, chains, w, i);
    c := chains[i].Append(ms);
    assert c.middlewares.buf[..] == List(w, i) + ms + [];
  }

  /** NewChain is Apply. */
  method NewChainOnHeap(arrays: seq<array<Middleware>>, chains: seq<Chain>, ghost w: World,
                        ms: seq<Middleware>, spare: nat)
    returns (c: Chain, ghost cells: seq<Middleware>)
    requires Represents(arrays, chains, w)
    ensures |cells| == spare
    ensures Represents(arrays + [c.middlewares.buf], chains + [c], Apply(w, Op.NewChain(ms, cells)))
  {
    c := MiddlewareChains.NewChain(ms, spare);
    cells := if ms == [] then seq(spare, _ => Middleware("")) else c.middlewares.buf[|ms|..];
    assert c.middlewares.buf[..] == c.middlewares.buf[..|ms|] + c.middlewares.buf[|ms|..];
    assert c.middlewares.buf[..] == ms + if ms == [] then [] else cells;
  }

  // ----- A chain that loses a member -----

  lemma RunsNext(ops: seq<Op>, v: World, op: Op) returns (ops': seq<Op>, w: World)
    requires Runs(ops, v) && WellFormed(v) && Applicable(v, op)
    ensures ops' == ops + [op] && w == Apply(v, op) && Runs(ops', w)
    ensures PureLists(ops') == PureApply(PureLists(ops), op)
  {
    ops', w := ops + [op], Apply(v, op);
    assert ops'[..|ops|] == ops;
  }

  /** The run ends in a chain, the `n`-th, that is what it should be; `spare` tells whether its array has room. */
  ghost predicate EndsIn(ops: seq<Op>, w: World, n: nat, ms: seq<Middleware>, spare: bool) {
    && Runs(ops, w) && WellFormed(w) && |w.chains| == |PureLists(ops)| == n + 1
    && List(w, n) == ms == PureLists(ops)[n] && HasSpare(w, n) == spare
  }

  /** Use on the last chain, without room for it: the result is on a new array, with room if `cells` is not empty. */
  lemma UseLast(ops: seq<Op>, v: World, n: nat, ms: seq<Middleware>, m: Middleware, cells: seq<Middleware>)
    returns (ops': seq<Op>, w: World)
    requires EndsIn(ops, v, n, ms, false)
    ensures EndsIn(ops', w, n + 1, ms + [m], cells != [])
  {
    ops', w := RunsNext(ops, v, Use(n, m, cells));
    assert w.bufs[w.chains[n + 1].buf] == ms + [m] + cells;
  }

  lemma NoMembers() returns (ops: seq<Op>, w: World)
    ensures EndsIn(ops, w, 0, [], false)
  {
    ops, w := RunsNext([], EMPTY, Op.NewChain([], []));
  }

  /** Room happens: in Go a chain grown to three members by Use has an array of four. */
  lemma SpareHappens(a: Middleware, b: Middleware, c: Middleware, cell: Middleware) returns (ops: seq<Op>, w: World)
    ensures EndsIn(ops, w, 3, [a, b, c], true)
  {
    ops, w := NoMembers();
    ops, w := UseLast(ops, w, 0, [], a, []);
    ops, w := UseLast(ops, w, 1, [a], b, []);
    ops, w := UseLast(ops, w, 2, [a, b], c, [cell]);
  }

  /** Two Use calls on such a chain: the first result is not the list it was made as. */
  lemma SecondUseHappens(a: Middleware, b: Middleware, c: Middleware, m: Middleware, n: Middleware)
    returns (ops: seq<Op>, w: World)
    ensures Runs(ops, w) && WellFormed(w) && |w.chains| == |PureLists(ops)| == 6
    ensures PureLists(ops)[4] == [a, b, c, m] && List(w, 4) == [a, b, c, n]
  {
    var v: World;
    ops, v := SpareHappens(a, b, c, a);
    SecondUseClobbers(v, 3, m, n, [], []);
    ops, w := RunsNext(ops, v, Use(3, m, []));
    ops, w := RunsNext(ops, w, Use(3, n, []));
    assert [a, b, c] + [n] == [a, b, c, n];
  }
}
