/**
 * The single-variable adapter over one scoped value, and the factories that
 * choose between the single adapter, the group adapter and the empty context
 * variable.
 */
module SingleVar {
  import opened Wrappers
  import opened ScopedValues
  import opened VarGroup

  /** Wraps one scoped value, fixed at construction. */
  datatype ScopedValueVar = ScopedValueVar(delegate: ScopedValue) {

    /** `get()`: the delegate's value when it is bound, `None` otherwise. */
    function Get<T>(s: Stack<T>): (r: Option<T>)
      ensures r.Some? <==> exists k :: 0 <= k < |s| && delegate.id in s[k]
      ensures r == Lookup(s, delegate.id)
    {
      ValueOrNull(delegate, s)
    }

    /** `runWith`: run `code` with `v` bound to the delegate, then remove the binding. */
    method RunWith<T, E>(env: Env<T>, v: T, code: Stack<T> -> Result<(), E>) returns (r: Result<(), E>)
      modifies env
      ensures r == code(Enter(old(env.frames), Where(delegate, v)))
      ensures env.frames == old(env.frames)
    {
      r := env.Run(Where(delegate, v), code);
    }

    /** `supplyWith`: as `runWith`, returning the code's result. */
    method SupplyWith<T, V, E>(env: Env<T>, v: T, code: Stack<T> -> Result<V, E>) returns (r: Result<V, E>)
      modifies env
      ensures r == code(Enter(old(env.frames), Where(delegate, v)))
      ensures env.frames == old(env.frames)
    {
      r := env.Run(Where(delegate, v), code);
    }

    /** `callWith`: as `supplyWith`, also rethrowing the code's exception unchanged. */
    method CallWith<T, V, E>(env: Env<T>, v: T, code: Stack<T> -> Result<V, E>) returns (r: Result<V, E>)
      modifies env
      ensures r == code(Enter(old(env.frames), Where(delegate, v)))
      ensures env.frames == old(env.frames)
    {
      r := env.Run(Where(delegate, v), code);
    }

    /** Inside `runWith(v, …)` the adapter reads `v`, and every other variable reads what it read outside. */
    lemma BoundInside<T>(s: Stack<T>, v: T, x: VarId)
      ensures Get(Enter(s, Where(delegate, v))) == Some(v)
      ensures x != delegate.id ==> Lookup(Enter(s, Where(delegate, v)), x) == Lookup(s, x)
    {
      LookupEnter(s, Where(delegate, v), delegate.id);
      LookupEnter(s, Where(delegate, v), x);
    }

    /**
     * `runWith(a, … runWith(b, …) …)`: the inner code reads `b`, and the
     * outer code reads `a`. That the outer code is back in `outer` once the
     * inner call returns, and the caller back in `s` once the outer call
     * returns, is `RunWith`'s `env.frames == old(env.frames)`.
     */
    lemma Nested<T>(s: Stack<T>, a: T, b: T)
      ensures var outer := Enter(s, Where(delegate, a));
              Get(Enter(outer, Where(delegate, b))) == Some(b) &&
              Get(outer) == Some(a)
    {
      BoundInside(s, a, delegate.id);
      BoundInside(Enter(s, Where(delegate, a)), b, delegate.id);
    }
  }

  /** The variable the list factories return: the empty context variable or a group. */
  datatype ContextVar = Empty | Group(group: ScopedValueVarGroup)

  /** `of(scopedValue)`: a single adapter around exactly that scoped value. */
  function Of(sv: ScopedValue): (r: ScopedValueVar)
    ensures r.delegate == sv
  {
    ScopedValueVar(sv)
  }

  /** `of(list)`: empty for a `null` (`None`) or empty list, otherwise a group over that list. */
  function OfList(svs: Option<seq<ScopedValue>>): (r: ContextVar)
    ensures r.Empty? <==> svs.None? || |svs.value| == 0
    ensures r.Group? ==> svs.Some? && r.group.scopedValues == svs.value
  {
    if svs.None? || |svs.value| == 0 then Empty else Group(ScopedValueVarGroup(svs.value))
  }

  /** `of(sv1, sv2, …)`: the list factory applied to the arguments in order. */
  function OfVarargs(svs: seq<ScopedValue>): (r: ContextVar)
    ensures r == OfList(Some(svs))
    ensures r.Empty? <==> |svs| == 0
    ensures r.Group? ==> r.group.scopedValues == svs
  {
    OfList(Some(svs))
  }

  /**
   * A fresh thread reads nothing; inside `supplyWith(v, get)` it reads `v`;
   * afterwards it reads nothing again.
   */
  method ReadAroundSupply<T>(x: ScopedValueVar, v: T) returns (before: Option<T>, inside: Result<Option<T>, string>, after: Option<T>)
    ensures before == None && inside == Ok(Some(v)) && after == None
  {
    var env := new Env<T>();
    before := x.Get(env.frames);
    inside := x.SupplyWith(env, v, (s: Stack<T>) => Ok(x.Get(s)));
    x.BoundInside(env.frames, v, x.delegate.id);
    after := x.Get(env.frames);
  }

  /** An exception from the code reaches the caller unchanged, and the binding is gone afterwards. */
  method FailureAroundCall<T, E>(x: ScopedValueVar, v: T, e: E) returns (thrown: Result<int, E>, after: Option<T>)
    ensures thrown == Err(e) && after == None
  {
    var env := new Env<T>();
    thrown := x.CallWith(env, v, (s: Stack<T>) => Err(e));
    after := x.Get(env.frames);
  }
}
