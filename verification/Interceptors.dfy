/** Interceptor chains (interceptor.go:33-87) and the coalescer's place in them (plugin_coalescer.go:95-115, 254-281).
    An operation reads and changes a world W; an interceptor gets the context, the operation's description and
    the invoker it may call any number of times. */
module Interceptors {
  import opened Bytes

  /** context.Context, as far as chains look at it: the coalescer's skip mark, and the rest. */
  datatype Context = Context(skip: bool, values: map<string, int>)

  datatype Info = Info(isReadWords: bool, area: byte, address: uint16, count: uint16)

  type Invoker<!W, !R> = (Context, W) -> (R, W)

  type Interceptor<!W, !R> = (Context, Info, Invoker<W, R>, W) -> (R, W)

  /** ChainInterceptors; nil for no interceptors. */
  function Chain<W, R>(xs: seq<Interceptor<W, R>>): (c: Option<Interceptor<W, R>>)
    ensures c.None? <==> xs == []
    decreases |xs|, 0
  {
    if xs == [] then None
    else if |xs| == 1 then Some(xs[0])
    else Some((ctx: Context, info: Info, invoker: Invoker<W, R>, w: W) =>
      xs[0](ctx, info, Rest(xs[1..], info, invoker), w))
  }

  /** The invoker the first interceptor is given: the chain of the others around the base invoker. */
  function Rest<W, R>(xs: seq<Interceptor<W, R>>, info: Info, invoker: Invoker<W, R>): Invoker<W, R>
    requires xs != []
    decreases |xs|, 1
  {
    (ctx: Context, w: W) => Chain(xs).value(ctx, info, invoker, w)
  }

  lemma ChainOfOne<W, R>(x: Interceptor<W, R>)
    ensures Chain([x]) == Some(x)
  {
    assert [x][0] == x;
  }

  // ---------- Chaining is composition ----------

  ghost predicate SameInvoker<W(!new), R>(f: Invoker<W, R>, g: Invoker<W, R>) {
    forall ctx: Context, w: W :: f(ctx, w) == g(ctx, w)
  }

  /** Go code cannot tell two functions apart but by calling them. */
  ghost predicate Extensional<W(!new), R(!new)>(x: Interceptor<W, R>) {
    forall ctx: Context, info: Info, f: Invoker<W, R>, g: Invoker<W, R>, w: W ::
      SameInvoker(f, g) ==> x(ctx, info, f, w) == x(ctx, info, g, w)
  }

  ghost predicate AllExtensional<W(!new), R(!new)>(xs: seq<Interceptor<W, R>>) {
    forall i :: 0 <= i < |xs| ==> Extensional(xs[i])
  }

  /** What a non-empty chain computes, written as a right fold over the invoker. */
  function Nested<W, R>(xs: seq<Interceptor<W, R>>, info: Info, invoker: Invoker<W, R>): Invoker<W, R> {
    if xs == [] then invoker
    else (ctx: Context, w: W) => xs[0](ctx, info, Nested(xs[1..], info, invoker), w)
  }

  /** Running a chain is running the right-nested composition of its interceptors. */
  lemma {:induction false} ChainIsNested<W(!new), R(!new)>(xs: seq<Interceptor<W, R>>, ctx: Context, info: Info,
        invoker: Invoker<W, R>, w: W)
    requires xs != [] && AllExtensional(xs)
    ensures Chain(xs).value(ctx, info, invoker, w) == Nested(xs, info, invoker)(ctx, w)
  {
    if |xs| == 1 {
      assert SameInvoker(invoker, Nested(xs[1..], info, invoker));
    } else {
      var inner := Rest(xs[1..], info, invoker);
      forall ctx': Context, w': W ensures inner(ctx', w') == Nested(xs[1..], info, invoker)(ctx', w') {
        ChainIsNested(xs[1..], ctx', info, invoker, w');
      }
      assert SameInvoker(inner, Nested(xs[1..], info, invoker));
      assert Extensional(xs[0]);
    }
  }

  lemma {:induction false} NestedRespects<W(!new), R(!new)>(xs: seq<Interceptor<W, R>>, info: Info, f: Invoker<W, R>,
        g: Invoker<W, R>)
    requires AllExtensional(xs) && SameInvoker(f, g)
    ensures SameInvoker(Nested(xs, info, f), Nested(xs, info, g))
  {
    if xs != [] {
      NestedRespects(xs[1..], info, f, g);
      assert Extensional(xs[0]);
    }
  }

  lemma {:induction false} NestedAppend<W(!new), R(!new)>(xs: seq<Interceptor<W, R>>, ys: seq<Interceptor<W, R>>,
        info: Info, invoker: Invoker<W, R>)
    requires AllExtensional(xs) && AllExtensional(ys)
    ensures SameInvoker(Nested(xs + ys, info, invoker), Nested(xs, info, Nested(ys, info, invoker)))
  {
    if xs == [] {
      assert xs + ys == ys;
    } else {
      assert (xs + ys)[0] == xs[0] && (xs + ys)[1..] == xs[1..] + ys;
      NestedAppend(xs[1..], ys, info, invoker);
      assert Extensional(xs[0]);
    }
  }

  lemma ChainIsExtensional<W(!new), R(!new)>(xs: seq<Interceptor<W, R>>)
    requires xs != [] && AllExtensional(xs)
    ensures Extensional(Chain(xs).value)
  {
    var c := Chain(xs).value;
    forall ctx: Context, info: Info, f: Invoker<W, R>, g: Invoker<W, R>, w: W | SameInvoker(f, g)
      ensures c(ctx, info, f, w) == c(ctx, info, g, w)
    {
      ChainIsNested(xs, ctx, info, f, w);
      ChainIsNested(xs, ctx, info, g, w);
      NestedRespects(xs, info, f, g);
    }
  }

  /** Chaining is associative: the chain of xs and ys together behaves as the chain of their two chains,
      for every context, operation, base invoker and world. */
  lemma ChainOfChains<W(!new), R(!new)>(xs: seq<Interceptor<W, R>>, ys: seq<Interceptor<W, R>>,
                                        ctx: Context, info: Info, invoker: Invoker<W, R>, w: W)
    requires xs != [] && ys != [] && AllExtensional(xs) && AllExtensional(ys)
    ensures Chain(xs + ys).value(ctx, info, invoker, w)
         == Chain([Chain(xs).value, Chain(ys).value]).value(ctx, info, invoker, w)
  {
    var cx, cy := Chain(xs).value, Chain(ys).value;
    var inner := Rest([cy], info, invoker);
    assert [cx, cy][1..] == [cy];
    ChainOfOne(cy);
    forall ctx': Context, w': W ensures inner(ctx', w') == Nested(ys, info, invoker)(ctx', w') {
      ChainIsNested(ys, ctx', info, invoker, w');
    }
    ChainIsExtensional(xs);
    assert SameInvoker(inner, Nested(ys, info, invoker));
    ChainIsNested(xs, ctx, info, Nested(ys, info, invoker), w);
    NestedAppend(xs, ys, info, invoker);
    ChainIsNested(xs + ys, ctx, info, invoker, w);
  }

  // ---------- The skip mark ----------

  /** The part of the world a coalescer adds: the requests put in its queue. */
  datatype World<U> = World(queue: seq<Info>, rest: U)

  /** The coalescer's interceptor: reads it admits go to its queue and wait for a reply; everything else, and
      every marked context, bypasses it with the mark set. */
  function Coalescer<U, R>(maxSpan: uint16, reply: (Info, World<U>) -> (R, U)): Interceptor<World<U>, R> {
    (ctx: Context, info: Info, invoker: Invoker<World<U>, R>, w: World<U>) =>
      if !info.isReadWords || info.count == 0 || info.count > maxSpan || ctx.skip then invoker(ctx.(skip := true), w)
      else
        var (r, rest) := reply(info, w);
        (r, World(w.queue + [info], rest))
  }

  /** An invoker that leaves the queue alone under marked contexts. */
  ghost predicate QueueSafe<U(!new), R>(f: Invoker<World<U>, R>) {
    forall ctx: Context, w: World<U> :: ctx.skip ==> f(ctx, w).1.queue == w.queue
  }

  /** An interceptor that passes a mark on: with a marked context it enqueues nothing unless its invoker does. */
  ghost predicate KeepsMark<U(!new), R(!new)>(x: Interceptor<World<U>, R>) {
    forall ctx: Context, info: Info, f: Invoker<World<U>, R>, w: World<U> ::
      ctx.skip && QueueSafe(f) ==> x(ctx, info, f, w).1.queue == w.queue
  }

  /** Only an unmarked word read of 1 to maxSpan words is queued, once, and answered with its reply; every other
      operation leaves the queue to the invoker, which is called under the mark, and returns what it returns. */
  lemma QueuedWhen<U(!new), R(!new)>(maxSpan: uint16, reply: (Info, World<U>) -> (R, U), ctx: Context, info: Info,
        f: Invoker<World<U>, R>, w: World<U>)
    requires QueueSafe(f)
    ensures var (r, w') := Coalescer<U, R>(maxSpan, reply)(ctx, info, f, w);
            if info.isReadWords && 1 <= info.count <= maxSpan && !ctx.skip then
              w'.queue == w.queue + [info] && (r, w'.rest) == reply(info, w)
            else w'.queue == w.queue && (r, w') == f(Context(true, ctx.values), w)
  {
  }

  lemma CoalescerKeepsMark<U(!new), R(!new)>(maxSpan: uint16, reply: (Info, World<U>) -> (R, U))
    ensures KeepsMark(Coalescer<U, R>(maxSpan, reply))
  {
  }

  lemma {:induction false} ChainKeepsMark<U(!new), R(!new)>(xs: seq<Interceptor<World<U>, R>>)
    requires xs != [] && forall i :: 0 <= i < |xs| ==> KeepsMark(xs[i])
    ensures KeepsMark(Chain(xs).value)
  {
    if |xs| > 1 {
      ChainKeepsMark(xs[1..]);
      assert KeepsMark(xs[0]);
      forall ctx: Context, info: Info, f: Invoker<World<U>, R>, w: World<U> | ctx.skip && QueueSafe(f)
        ensures Chain(xs).value(ctx, info, f, w).1.queue == w.queue
      {
        assert QueueSafe(Rest(xs[1..], info, f));
      }
    } else {
      assert xs == [xs[0]];
    }
  }

  /** A flush's combined read, sent through a chain that contains the coalescer anywhere, never re-enters its
      queue (where the flushing goroutine would wait for itself), provided the others pass the mark on. */
  lemma FlushNeverReenters<U(!new), R(!new)>(before: seq<Interceptor<World<U>, R>>, maxSpan: uint16,
        reply: (Info, World<U>) -> (R, U), after: seq<Interceptor<World<U>, R>>,
        ctx: Context, info: Info, raw: Invoker<World<U>, R>, w: World<U>)
    requires forall x :: x in before + after ==> KeepsMark(x)
    requires forall c: Context, v: World<U> :: raw(c, v).1.queue == v.queue
    ensures var chain := Chain(before + [Coalescer<U, R>(maxSpan, reply)] + after).value;
            chain(ctx.(skip := true), info, raw, w).1.queue == w.queue
  {
    var xs := before + [Coalescer<U, R>(maxSpan, reply)] + after;
    CoalescerKeepsMark<U, R>(maxSpan, reply);
    forall i | 0 <= i < |xs| ensures KeepsMark(xs[i]) {
      if i < |before| {
        assert xs[i] == (before + after)[i];
      } else if i > |before| {
        assert xs[i] == (before + after)[i - 1];
      }
    }
    ChainKeepsMark(xs);
    assert QueueSafe(raw);
  }

  /** An interceptor that calls on with a fresh context. */
  function DropsContext<U, R>(): Interceptor<World<U>, R> {
    (ctx: Context, info: Info, invoker: Invoker<World<U>, R>, w: World<U>) => invoker(Context(false, map[]), w)
  }

  /** The proviso is needed: behind an interceptor that starts a fresh context, the combined read is enqueued. */
  lemma FreshContextReenters<U(!new), R(!new)>(maxSpan: uint16, reply: (Info, World<U>) -> (R, U), ctx: Context,
        info: Info, raw: Invoker<World<U>, R>, w: World<U>)
    requires info.isReadWords && 0 < info.count <= maxSpan
    ensures var chain := Chain([DropsContext<U, R>(), Coalescer<U, R>(maxSpan, reply)]).value;
            chain(ctx.(skip := true), info, raw, w).1.queue == w.queue + [info]
  {
    var xs := [DropsContext<U, R>(), Coalescer<U, R>(maxSpan, reply)];
    assert xs[1..] == [Coalescer<U, R>(maxSpan, reply)];
    ChainOfOne(Coalescer<U, R>(maxSpan, reply));
    assert Rest(xs[1..], info, raw)(Context(false, map[]), w).1.queue == w.queue + [info];
  }
}
