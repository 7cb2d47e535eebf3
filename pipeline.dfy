/** The module pipeline of src/pipeline.hpp: a compile-time chain check over
    the modules' declared predecessors, and a runner that checks every module
    before running them in order, each on its predecessor's conduit.

    C++ types are modelled as values: a `TypeInfo` names a type and lists its
    (direct and indirect) base classes; `void` is the name 0 with no bases. A
    module's `check` and `run` are calls into code outside the pipeline, so
    they are carried by the module value. */
module Pipeline {
  import opened Wrappers

  /** A C++ class type: its name and every class it derives from. */
  datatype TypeInfo = TypeInfo(name: nat, bases: set<nat>)

  /** `void`, the `previous` of a module that must come first. */
  const Void := TypeInfo(0, {})

  /** `std::is_same<b, d> || std::is_base_of<b, d>`: `d` is `b` or derives from it. */
  predicate SameOrBase(b: nat, d: TypeInfo)
  {
    b == d.name || b in d.bases
  }

  /** A conduit: the object one module hands to the next. Its type says which
      conduit class it is an instance of; its payload is left abstract. */
  datatype Conduit = Conduit(kind: TypeInfo, payload: seq<int>)

  /** A pipe: a pointer to a conduit, `None` for the empty pointer. */
  type Pipe = Option<Conduit>

  /** What a module does when run: its own logic, or a middleware wrapped
      around an inner behaviour. A middleware receives the pipe and the
      `next` step, and decides whether and how to call it. */
  datatype Behaviour =
    | Plain(body: Pipe -> Pipe)
    | Middleware(inner: Behaviour, around: (Pipe, Pipe -> Pipe) -> Pipe)

  /** A module of the pipeline: its type, its expected predecessor (`previous`),
      whether it derives from `pipeline::module`, the answer of its `check`,
      and its `run`. */
  datatype Module = Module(kind: TypeInfo, previous: nat, isModule: bool, check: bool, behaviour: Behaviour)

  /** `run` of a module's behaviour on a pipe. */
  function RunBehaviour(b: Behaviour, p: Pipe): Pipe
  {
    match b
    case Plain(body) => body(p)
    case Middleware(inner, around) => around(p, q => RunBehaviour(inner, q))
  }

  /** `middleware::next`: bubbles the call to the wrapped module's `run`. */
  function Next(b: Behaviour, p: Pipe): (r: Pipe)
    requires b.Middleware?
    ensures b.inner.Plain? ==> r == b.inner.body(p)
  {
    RunBehaviour(b.inner, p)
  }

  /** A middleware whose logic always bubbles the call behaves exactly as the
      module it wraps. */
  lemma TransparentMiddleware(inner: Behaviour, around: (Pipe, Pipe -> Pipe) -> Pipe, p: Pipe)
    requires forall q, next :: around(q, next) == next(q)
    ensures RunBehaviour(Middleware(inner, around), p) == RunBehaviour(inner, p)
    ensures RunBehaviour(Middleware(inner, around), p) == Next(Middleware(inner, around), p)
  {
  }

  /** A middleware whose result does not depend on `next` skips the wrapped
      module: whatever it wraps, the result is the same. */
  lemma SkippingMiddleware(inner: Behaviour, other: Behaviour, around: (Pipe, Pipe -> Pipe) -> Pipe, p: Pipe)
    requires forall q, f: Pipe -> Pipe, g: Pipe -> Pipe :: around(q, f) == around(q, g)
    ensures RunBehaviour(Middleware(inner, around), p) == RunBehaviour(Middleware(other, around), p)
  {
  }

  /** `autowire<T, M...>`: the middlewares wrapped around the module's own
      logic, the first one outermost. */
  function Autowire(body: Pipe -> Pipe, layers: seq<(Pipe, Pipe -> Pipe) -> Pipe>): (b: Behaviour)
    ensures layers == [] ==> b == Plain(body)
    ensures layers != [] ==> b.Middleware? && b.around == layers[0]
  {
    if layers == [] then Plain(body) else Middleware(Autowire(body, layers[1..]), layers[0])
  }

  /** Wrapping a module in middlewares that all bubble leaves its `run` unchanged. */
  lemma {:induction false} AutowireTransparent(body: Pipe -> Pipe, layers: seq<(Pipe, Pipe -> Pipe) -> Pipe>, p: Pipe)
    requires forall k, q, next :: 0 <= k < |layers| ==> layers[k](q, next) == next(q)
    ensures RunBehaviour(Autowire(body, layers), p) == body(p)
  {
    if layers != [] {
      AutowireTransparent(body, layers[1..], p);
      assert forall q, next :: layers[0](q, next) == next(q);
    }
  }

  /** One link of the chain: `t` accepts `p` as its predecessor and is a module. */
  predicate Links(p: TypeInfo, t: Module)
  {
    SameOrBase(t.previous, p) && t.isModule
  }

  /** `chainable<P, T...>()`: every module accepts the one before it, the first
      one accepting `P`. */
  function Chainable(p: TypeInfo, ts: seq<Module>): (r: bool)
    ensures ts == [] ==> r
    decreases |ts|
  {
    if ts == [] then true else Links(p, ts[0]) && Chainable(ts[0].kind, ts[1..])
  }

  /** The type each module of the chain must accept: `p` for the first, the
      module before it for the others. */
  function Before(p: TypeInfo, ts: seq<Module>, i: nat): TypeInfo
    requires i < |ts|
  {
    if i == 0 then p else ts[i - 1].kind
  }

  /** The chain check holds exactly when every link holds. */
  lemma {:induction false} ChainableLinks(p: TypeInfo, ts: seq<Module>)
    ensures Chainable(p, ts) <==> forall i :: 0 <= i < |ts| ==> Links(Before(p, ts, i), ts[i])
    decreases |ts|
  {
    if ts != [] {
      ChainableLinks(ts[0].kind, ts[1..]);
      forall i | 1 <= i < |ts| ensures Before(p, ts, i) == Before(ts[0].kind, ts[1..], i - 1) { }
      if forall i :: 0 <= i < |ts| ==> Links(Before(p, ts, i), ts[i]) {
        forall i | 0 <= i < |ts| - 1 ensures Links(Before(ts[0].kind, ts[1..], i), ts[1..][i]) {
          assert Links(Before(p, ts, i + 1), ts[i + 1]);
        }
      }
    }
  }

  /** The runner's static check `chainable<void, T...>()`: the first module
      must expect `void`, since no class derives from `void`. */
  lemma RunnerFirstExpectsVoid(ts: seq<Module>)
    requires Chainable(Void, ts) && ts != []
    ensures ts[0].previous == Void.name
  {
  }

  /** `convert<T>(pipe)`: the conduit itself when it is an instance of `T`'s
      conduit class `expected` (or of a class derived from it), and the empty
      pointer otherwise. */
  function Convert(expected: nat, p: Pipe): (r: Pipe)
    ensures r.Some? ==> r == p && SameOrBase(expected, p.value.kind)
    ensures r.None? ==> p.None? || !SameOrBase(expected, p.value.kind)
  {
    if p.Some? && SameOrBase(expected, p.value.kind) then p else None
  }

  /** Whether every module's `check` passes. */
  predicate AllChecked(ms: seq<Module>)
  {
    forall i :: 0 <= i < |ms| ==> ms[i].check
  }

  /** `runner::verify`: asks each module's `check` in order and stops at the
      first that fails. `asked` counts the `check` calls made. */
  method Verify(ms: seq<Module>) returns (ok: bool, asked: nat)
    ensures ok <==> AllChecked(ms)
    ensures ok ==> asked == |ms|
    ensures !ok ==> 1 <= asked <= |ms| && !ms[asked - 1].check
    ensures forall i :: 0 <= i < asked - 1 ==> ms[i].check
  {
    var i := 0;
    while i < |ms|
      invariant 0 <= i <= |ms|
      invariant forall k :: 0 <= k < i ==> ms[k].check
    {
      if !ms[i].check {
        return false, i + 1;
      }
      i := i + 1;
    }
    return true, |ms|;
  }

  /** The pipe the chain hands on after its first `n` modules have run. */
  function PipeAfter(ms: seq<Module>, n: nat): Pipe
    requires n <= |ms|
  {
    if n == 0 then None else RunBehaviour(ms[n - 1].behaviour, PipeAfter(ms, n - 1))
  }

  /** Running two chains one after the other is running their concatenation. */
  lemma {:induction false} PipeAfterConcat(a: seq<Module>, b: seq<Module>, n: nat)
    requires n <= |b|
    ensures PipeAfter(a + b, |a| + n) == PipeFrom(b, n, PipeAfter(a, |a|))
  {
    if n == 0 {
      PipeAfterPrefix(a, b, |a|);
    } else {
      PipeAfterConcat(a, b, n - 1);
      assert (a + b)[|a| + n - 1] == b[n - 1];
    }
  }

  /** The pipe after the first `n` modules of `b`, started from `start`. */
  function PipeFrom(b: seq<Module>, n: nat, start: Pipe): Pipe
    requires n <= |b|
  {
    if n == 0 then start else RunBehaviour(b[n - 1].behaviour, PipeFrom(b, n - 1, start))
  }

  /** The modules appended after position `n` do not change the pipe there. */
  lemma {:induction false} PipeAfterPrefix(a: seq<Module>, b: seq<Module>, n: nat)
    requires n <= |a|
    ensures PipeAfter(a + b, n) == PipeAfter(a, n)
  {
    if n > 0 {
      PipeAfterPrefix(a, b, n - 1);
      assert (a + b)[n - 1] == a[n - 1];
    }
  }

  /** `runner::execute`: runs the modules in order, module 0 on the empty
      pipe and every later one on its predecessor's result, and returns the
      last result. `received[i]` is the pipe module `i` was given. */
  method Execute(ms: seq<Module>) returns (r: Pipe, received: seq<Pipe>)
    ensures |received| == |ms|
    ensures |ms| > 0 ==> received[0] == None
    ensures forall i :: 0 < i < |ms| ==> received[i] == RunBehaviour(ms[i - 1].behaviour, received[i - 1])
    ensures |ms| > 0 ==> r == RunBehaviour(ms[|ms| - 1].behaviour, received[|ms| - 1])
    ensures |ms| == 0 ==> r == None
    ensures r == PipeAfter(ms, |ms|)
  {
    var pipe: Pipe := None;
    received := [];
    var i := 0;
    while i < |ms|
      invariant 0 <= i <= |ms| && |received| == i
      invariant pipe == PipeAfter(ms, i)
      invariant forall k :: 0 <= k < i ==> received[k] == PipeAfter(ms, k)
    {
      received := received + [pipe];
      pipe := RunBehaviour(ms[i].behaviour, pipe);
      i := i + 1;
    }
    r := pipe;
  }

  /** `runner::run`: raises before any module runs when some `check` fails;
      otherwise executes the chain. `received` is empty when it raises: no
      module was run. */
  method Run(ms: seq<Module>) returns (r: Result<Pipe>, received: seq<Pipe>)
    requires Chainable(Void, ms)
    ensures r.Failure? <==> !AllChecked(ms)
    ensures r.Failure? ==> received == []
    ensures r.Success? ==> r.value == PipeAfter(ms, |ms|) && |received| == |ms|
  {
    var ok, _ := Verify(ms);
    if !ok {
      return Failure("pipeline verification failed"), [];
    }
    var pipe;
    pipe, received := Execute(ms);
    r := Success(pipe);
  }
}
