/**
 * The runtime's scoped-value primitive, which the adapters only use.
 *
 * The dynamic environment of the running thread is a stack of frames; each
 * frame maps variable identities to the values bound by one carrier. The top
 * of the stack is the LAST frame, and a lookup searches from the top, so an
 * inner binding shadows an outer one. Running code under a carrier pushes one
 * frame, runs the code and pops the frame again, whether the code returned
 * or threw.
 */
module ScopedValues {
  import opened Wrappers

  /** The identity of one scoped variable (a Java `ScopedValue` object). */
  type VarId = nat

  datatype ScopedValue = ScopedValue(id: VarId)

  type Frame<T> = map<VarId, T>

  /** The dynamic environment; its last frame is the innermost one. */
  type Stack<T> = seq<Frame<T>>

  /** The value the innermost frame that binds `x` gives it, or `None` when no frame binds `x`. */
  function Lookup<T>(s: Stack<T>, x: VarId): (r: Option<T>)
    ensures r.None? <==> forall k :: 0 <= k < |s| ==> x !in s[k]
    ensures r.Some? ==> exists k :: 0 <= k < |s| && x in s[k] && r.value == s[k][x] && Unshadowed(s, k, x)
    decreases |s|
  {
    if s == [] then None
    else if x in s[|s| - 1] then Some(s[|s| - 1][x])
    else
      var r := Lookup(s[..|s| - 1], x);
      assert r.Some? ==> exists k :: 0 <= k < |s| && x in s[k] && r.value == s[k][x] && Unshadowed(s, k, x) by {
        if r.Some? {
          var k :| 0 <= k < |s| - 1 && x in s[k] && r.value == s[k][x] && Unshadowed(s[..|s| - 1], k, x);
          assert Unshadowed(s, k, x);
        }
      }
      r
  }

  /** No frame above frame `k` binds `x`. */
  ghost predicate Unshadowed<T>(s: Stack<T>, k: int, x: VarId) {
    forall j :: 0 <= j < |s| && k < j ==> x !in s[j]
  }

  /** `ScopedValue.isBound()`: some frame of the environment binds `sv`. */
  predicate IsBound<T>(sv: ScopedValue, s: Stack<T>)
    ensures IsBound(sv, s) <==> exists k :: 0 <= k < |s| && sv.id in s[k]
  {
    Lookup(s, sv.id).Some?
  }

  /** `ScopedValue.get()`, which the runtime only answers for a bound variable. */
  function Value<T>(sv: ScopedValue, s: Stack<T>): (r: T)
    requires IsBound(sv, s)
    ensures exists k :: 0 <= k < |s| && sv.id in s[k] && r == s[k][sv.id] && Unshadowed(s, k, sv.id)
  {
    Lookup(s, sv.id).value
  }

  /** `isBound() ? get() : null`, the read both adapters perform on a variable. */
  function ValueOrNull<T>(sv: ScopedValue, s: Stack<T>): (r: Option<T>)
    ensures r == Lookup(s, sv.id)
  {
    if IsBound(sv, s) then Some(Value(sv, s)) else None
  }

  /**
   * A `ScopedValue.Carrier`: the bindings collected by `ScopedValue.where`
   * and then by `Carrier.where`, in the order they were added.
   */
  datatype Carrier<T> = Carrier(bindings: seq<(VarId, T)>) {

    /** `Carrier.where(sv, v)`: this carrier with one more binding on top. */
    function Where(sv: ScopedValue, v: T): (c: Carrier<T>)
      ensures |c.bindings| == |bindings| + 1
      ensures c.bindings[..|bindings|] == bindings && c.bindings[|bindings|] == (sv.id, v)
    {
      Carrier(bindings + [(sv.id, v)])
    }
  }

  /** `ScopedValue.where(sv, v)`: a carrier with the single binding of `v` to `sv`. */
  function Where<T>(sv: ScopedValue, v: T): (c: Carrier<T>)
    ensures c.bindings == [(sv.id, v)]
  {
    Carrier([(sv.id, v)])
  }

  /** No binding after the `i`-th one binds the same variable. */
  ghost predicate LastFor<T>(bs: seq<(VarId, T)>, i: int)
    requires 0 <= i < |bs|
  {
    forall j :: i < j < |bs| ==> bs[j].0 != bs[i].0
  }

  /**
   * The frame a carrier pushes: each binding is layered over the earlier
   * ones, so the frame binds exactly the carrier's variables, each to the
   * value of its last binding.
   */
  function FrameOf<T>(bs: seq<(VarId, T)>): (f: Frame<T>)
    ensures f.Keys == set i | 0 <= i < |bs| :: bs[i].0
    ensures forall i :: 0 <= i < |bs| && LastFor(bs, i) ==> f[bs[i].0] == bs[i].1
    decreases |bs|
  {
    if bs == [] then map[]
    else
      var init := bs[..|bs| - 1];
      var f := FrameOf(init)[bs[|bs| - 1].0 := bs[|bs| - 1].1];
      assert f.Keys == (set i | 0 <= i < |init| :: init[i].0) + {bs[|bs| - 1].0};
      assert forall i :: 0 <= i < |bs| - 1 && LastFor(bs, i) ==> LastFor(init, i);
      f
  }

  /**
   * The environment inside code run under carrier `c`: one more frame on
   * top, binding exactly the carrier's variables; removing it gives `s` back.
   */
  function Enter<T>(s: Stack<T>, c: Carrier<T>): (r: Stack<T>)
    ensures |r| == |s| + 1 && r[..|s|] == s
    ensures r[|s|].Keys == set i | 0 <= i < |c.bindings| :: c.bindings[i].0
  {
    s + [FrameOf(c.bindings)]
  }

  /** Pushing a frame shadows exactly the variables that frame binds. */
  lemma LookupEnter<T>(s: Stack<T>, c: Carrier<T>, x: VarId)
    ensures var f := FrameOf(c.bindings);
            Lookup(Enter(s, c), x) == if x in f then Some(f[x]) else Lookup(s, x)
  {
    assert Enter(s, c)[..|s|] == s;
  }

  /**
   * Layering `c.where(sv, v)`: under the bigger carrier `sv` reads `v`, and
   * every other variable reads what it reads under `c`.
   */
  lemma WhereLayers<T>(s: Stack<T>, c: Carrier<T>, sv: ScopedValue, v: T, x: VarId)
    ensures Lookup(Enter(s, c.Where(sv, v)), sv.id) == Some(v)
    ensures x != sv.id ==> Lookup(Enter(s, c.Where(sv, v)), x) == Lookup(Enter(s, c), x)
  {
    var c' := c.Where(sv, v);
    assert c'.bindings[..|c'.bindings| - 1] == c.bindings;
    assert FrameOf(c'.bindings) == FrameOf(c.bindings)[sv.id := v];
    LookupEnter(s, c', sv.id);
    LookupEnter(s, c', x);
    LookupEnter(s, c, x);
  }

  /** The binding environment of the running thread. */
  class Env<T> {
    var frames: Stack<T>

    /** A thread that starts with nothing bound. */
    constructor ()
      ensures frames == []
    {
      frames := [];
    }

    /**
     * `Carrier.run`, `Carrier.get` and `Carrier.call`: run `code` with the
     * carrier's frame pushed, and pop that frame on the way out whether the
     * code returned or threw. The outcome is the code's own.
     */
    method Run<V, E>(c: Carrier<T>, code: Stack<T> -> Result<V, E>) returns (r: Result<V, E>)
      modifies this
      ensures r == code(Enter(old(frames), c))
      ensures frames == old(frames)
    {
      frames := Enter(frames, c);
      r := code(frames);
      // the frame is removed on both exits, normal return and exception
      frames := frames[..|frames| - 1];
    }
  }
}
