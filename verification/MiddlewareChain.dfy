/** The middleware chain over Go slices: a slice is a backing array and a length, and its capacity is the
    length of the array. `append` writes into spare capacity, so chains may share an array. */
module MiddlewareChains {
  import opened Wrappers

  datatype Middleware = Middleware(name: string)

  /** An http.Handler: the default mux, some endpoint, or a handler wrapped by a middleware. */
  datatype Handler = DefaultServeMux | Endpoint(name: string) | Wrapped(outer: Middleware, next: Handler)

  function Wrap(m: Middleware, next: Handler): Handler {
    Wrapped(m, next)
  }

  /** The first middleware of the list is outermost. */
  function Compose(ms: seq<Middleware>, h: Handler): Handler {
    if ms == [] then h else Wrap(ms[0], Compose(ms[1..], h))
  }

  /** The middlewares a request runs through, in order, before it reaches the innermost handler. */
  function Order(h: Handler): seq<Middleware> {
    match h
    case Wrapped(outer, next) => [outer] + Order(next)
    case _ => []
  }

  function Innermost(h: Handler): Handler {
    match h
    case Wrapped(_, next) => Innermost(next)
    case _ => h
  }

  lemma {:induction false} ComposeRunsInOrder(ms: seq<Middleware>, h: Handler)
    ensures Order(Compose(ms, h)) == ms + Order(h)
    ensures Innermost(Compose(ms, h)) == Innermost(h)
  {
    if ms != [] { ComposeRunsInOrder(ms[1..], h); }
  }

  /** Extending a chain and then applying it is applying the extension first: what Append, Extend and nested
      chains rely on. */
  lemma {:induction false} ComposeConcat(a: seq<Middleware>, b: seq<Middleware>, h: Handler)
    ensures Compose(a + b, h) == Compose(a, Compose(b, h))
  {
    if a == [] {
      assert a + b == b;
    } else {
      assert (a + b)[1..] == a[1..] + b;
      ComposeConcat(a[1..], b, h);
    }
  }

  function OrDefault(handler: Option<Handler>): Handler {
    match handler
    case None => DefaultServeMux
    case Some(h) => h
  }

  datatype Slice = Slice(buf: array<Middleware>, len: nat) {
    ghost predicate Valid() {
      len <= buf.Length
    }

    ghost function Contents(): seq<Middleware>
      requires Valid()
      reads buf
    {
      buf[..len]
    }
  }

  /** Go's append; `spare` is the extra capacity the runtime gives a reallocated slice. */
  method GoAppend(s: Slice, xs: seq<Middleware>, spare: nat) returns (r: Slice)
    requires s.Valid()
    modifies s.buf
    ensures r.Valid() && r.Contents() == old(s.Contents()) + xs && r.len == s.len + |xs|
    ensures s.len + |xs| <= s.buf.Length ==>
              && r.buf == s.buf
              && s.buf[..] == old(s.buf[..])[..s.len] + xs + old(s.buf[..])[s.len + |xs|..]
    ensures s.len + |xs| > s.buf.Length ==>
              fresh(r.buf) && s.buf[..] == old(s.buf[..]) && r.buf.Length == r.len + spare
  {
    if s.len + |xs| <= s.buf.Length {
      forall i | 0 <= i < |xs| { s.buf[s.len + i] := xs[i]; }
      r := Slice(s.buf, s.len + |xs|);
      assert s.buf[..s.len] == old(s.buf[..s.len]);
    } else {
      var buf := new Middleware[s.len + |xs| + spare];
      forall i | 0 <= i < s.len { buf[i] := s.buf[i]; }
      forall i | 0 <= i < |xs| { buf[s.len + i] := xs[i]; }
      r := Slice(buf, s.len + |xs|);
    }
  }

  class Chain {
    const middlewares: Slice

    constructor (middlewares: Slice)
      ensures this.middlewares == middlewares
    {
      this.middlewares := middlewares;
    }

    ghost predicate Valid() { middlewares.Valid() }

    ghost function Contents(): seq<Middleware>
      requires Valid()
      reads middlewares.buf
    {
      middlewares.Contents()
    }

    /** Writes into this chain's own array when it has spare capacity. */
    method Use(middleware: Middleware, spare: nat) returns (c: Chain)
      requires Valid()
      modifies middlewares.buf
      ensures fresh(c) && c.Valid() && c.Contents() == old(Contents()) + [middleware]
      ensures Contents() == old(Contents())
      ensures middlewares.len < middlewares.buf.Length ==>
                && c.middlewares.buf == middlewares.buf
                && middlewares.buf[..] == old(middlewares.buf[..])[middlewares.len := middleware]
      ensures middlewares.len == middlewares.buf.Length ==>
                && fresh(c.middlewares.buf) && middlewares.buf[..] == old(middlewares.buf[..])
                && c.middlewares.buf.Length == c.middlewares.len + spare
    {
      var s := GoAppend(middlewares, [middleware], spare);
      c := new Chain(s);
    }

    /** Always copies. */
    method Append(more: seq<Middleware>) returns (c: Chain)
      requires Valid()
      ensures fresh(c) && c.Valid() && fresh(c.middlewares.buf)
      ensures c.Contents() == Contents() + more && c.middlewares.buf.Length == c.middlewares.len
    {
      var buf := new Middleware[middlewares.len + |more|];
      forall i | 0 <= i < middlewares.len { buf[i] := middlewares.buf[i]; }
      forall i | 0 <= i < |more| { buf[middlewares.len + i] := more[i]; }
      c := new Chain(Slice(buf, middlewares.len + |more|));
    }

    method Then(handler: Option<Handler>) returns (h: Handler)
      requires Valid()
      ensures h == Compose(Contents(), OrDefault(handler))
      ensures Contents() == [] && handler.Some? ==> h == handler.value
      ensures handler.Some? ==> Order(h) == Contents() + Order(handler.value) && Innermost(h) == Innermost(handler.value)
      ensures handler.None? ==> Order(h) == Contents() && Innermost(h) == DefaultServeMux
    {
      ComposeRunsInOrder(Contents(), OrDefault(handler));
      h := OrDefault(handler);
      var i := middlewares.len;
      assert Contents()[i..] == [];
      while i > 0
        invariant 0 <= i <= middlewares.len
        invariant h == Compose(Contents()[i..], OrDefault(handler))
      {
        i := i - 1;
        assert Contents()[i..] == [Contents()[i]] + Contents()[i + 1..];
        h := Wrap(middlewares.buf[i], h);
      }
      assert Contents()[0..] == Contents();
    }
  }

  method NewChain(middlewares: seq<Middleware>, spare: nat) returns (c: Chain)
    ensures fresh(c) && c.Valid() && fresh(c.middlewares.buf) && c.Contents() == middlewares
    ensures c.middlewares.buf.Length == if middlewares == [] then 0 else |middlewares| + spare
  {
    var buf := new Middleware[0];
    var s := GoAppend(Slice(buf, 0), middlewares, spare);
    c := new Chain(s);
  }

  /** Every result of Use is dropped, so what comes back is the empty chain: applying it wraps nothing. */
  method CreateCompleteMiddlewareChain(spare: nat) returns (c: Chain)
    ensures fresh(c) && c.Valid() && c.Contents() == []
    ensures forall h :: Compose(c.Contents(), h) == h
  {
    var buf := new Middleware[0];
    c := new Chain(Slice(buf, 0));
    var _ := c.Use(Middleware("recovery"), spare);
    var _ := c.Use(Middleware("logging"), spare);
    var _ := c.Use(Middleware("security"), spare);
    var _ := c.Use(Middleware("cors"), spare);
    var _ := c.Use(Middleware("ratelimit"), spare);
  }

  /** Append and nesting agree, whatever the handler, the missing one included. */
  method AppendThenIsNesting(c: Chain, more: seq<Middleware>, handler: Option<Handler>, spare: nat)
    returns (appended: Handler, nested: Handler)
    requires c.Valid()
    ensures appended == nested && Order(appended) == c.Contents() + more + Order(OrDefault(handler))
  {
    var longer := c.Append(more);
    appended := longer.Then(handler);
    var inner := NewChain(more, spare);
    var h := inner.Then(handler);
    nested := c.Then(Some(h));
    ComposeConcat(c.Contents(), more, OrDefault(handler));
    ComposeRunsInOrder(c.Contents() + more, OrDefault(handler));
  }
}
