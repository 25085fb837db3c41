/**
 * The group adapter: one context variable over an ordered list of scoped
 * values, read as a list and bound from a list of values in one carrier.
 */
module VarGroup {
  import opened Wrappers
  import opened ScopedValues

  /** Every member is a different scoped variable. */
  predicate DistinctIds(svs: seq<ScopedValue>) {
    forall i, j :: 0 <= i < j < |svs| ==> svs[i].id != svs[j].id
  }

  function Min(a: int, b: int): int {
    if a <= b then a else b
  }

  /** The members and values paired position by position, up to the shorter list. */
  function Zip<T>(svs: seq<ScopedValue>, values: seq<T>): (ps: seq<(VarId, T)>)
    ensures |ps| == Min(|svs|, |values|)
    ensures forall i :: 0 <= i < |ps| ==> ps[i] == (svs[i].id, values[i])
  {
    seq(Min(|svs|, |values|), i requires 0 <= i < Min(|svs|, |values|) => (svs[i].id, values[i]))
  }

  /**
   * The carrier the group builds for `values`: none when no pair is formed,
   * otherwise one carrying the pairs in member order.
   */
  function CallChain<T>(svs: seq<ScopedValue>, values: seq<T>): (c: Option<Carrier<T>>)
    ensures c.None? <==> |svs| == 0 || |values| == 0
    ensures c.Some? ==> |c.value.bindings| == Min(|svs|, |values|)
    ensures c.Some? ==> forall i :: 0 <= i < |c.value.bindings| ==> c.value.bindings[i] == (svs[i].id, values[i])
  {
    if |svs| == 0 || |values| == 0 then None else Some(Carrier(Zip(svs, values)))
  }

  /** The members are fixed at construction; the list is never changed afterwards. */
  datatype ScopedValueVarGroup = ScopedValueVarGroup(scopedValues: seq<ScopedValue>) {

    /** `get()`: every member's value in member order, `None` for an unbound member. */
    function Get<T>(s: Stack<T>): (r: seq<Option<T>>)
      ensures |r| == |scopedValues|
      ensures forall i :: 0 <= i < |r| ==> r[i] == Lookup(s, scopedValues[i].id)
    {
      seq(|scopedValues|, i requires 0 <= i < |scopedValues| => ValueOrNull(scopedValues[i], s))
    }

    /** The environment the protected code sees when the group is bound to `values`. */
    function Within<T>(s: Stack<T>, values: seq<T>): (r: Stack<T>)
      ensures |scopedValues| == 0 || |values| == 0 ==> r == s
      ensures |scopedValues| != 0 && |values| != 0 ==> r == Enter(s, Carrier(Zip(scopedValues, values)))
    {
      match CallChain(scopedValues, values)
      case None => s
      case Some(c) => Enter(s, c)
    }

    /**
     * `createCallChain`: walk the members and the values together; the first
     * pair starts the carrier and every later pair is layered on it.
     */
    method CreateCallChain<T>(values: seq<T>) returns (c: Option<Carrier<T>>)
      ensures c == CallChain(scopedValues, values)
      ensures c.None? <==> |scopedValues| == 0 || |values| == 0
      ensures c.Some? ==> c.value.bindings == Zip(scopedValues, values)
    {
      c := None;
      var i := 0;
      while i < |scopedValues| && i < |values|
        invariant 0 <= i <= |scopedValues| && i <= |values|
        invariant c == CallChain(scopedValues[..i], values[..i])
      {
        var scopedValue := scopedValues[i];
        var capturedValue := values[i];
        var pairs := Zip(scopedValues[..i], values[..i]);
        assert Zip(scopedValues[..i + 1], values[..i + 1]) == pairs + [(scopedValue.id, capturedValue)];
        if c.None? {
          assert pairs == [] && pairs + [(scopedValue.id, capturedValue)] == [(scopedValue.id, capturedValue)];
          c := Some(Where(scopedValue, capturedValue));
        } else {
          assert c.value.bindings == pairs;
          c := Some(c.value.Where(scopedValue, capturedValue));
        }
        assert c.value.bindings == pairs + [(scopedValue.id, capturedValue)];
        i := i + 1;
      }
      assert scopedValues[..i] == scopedValues || values[..i] == values;
      assert Zip(scopedValues[..i], values[..i]) == Zip(scopedValues, values);
    }

    /** `runWith`: run `code` under the group's carrier, or directly when there is none. */
    method RunWith<T, E>(env: Env<T>, values: seq<T>, code: Stack<T> -> Result<(), E>) returns (r: Result<(), E>)
      modifies env
      ensures r == code(Within(old(env.frames), values))
      ensures env.frames == old(env.frames)
    {
      var carrier := CreateCallChain(values);
      if carrier.Some? {
        r := env.Run(carrier.value, code);
      } else {
        r := code(env.frames);
      }
    }

    /** `supplyWith`: as `runWith`, returning the code's result. */
    method SupplyWith<T, V, E>(env: Env<T>, values: seq<T>, code: Stack<T> -> Result<V, E>) returns (r: Result<V, E>)
      modifies env
      ensures r == code(Within(old(env.frames), values))
      ensures env.frames == old(env.frames)
    {
      var carrier := CreateCallChain(values);
      if carrier.Some? {
        r := env.Run(carrier.value, code);
      } else {
        r := code(env.frames);
      }
    }

    /** `callWith`: as `supplyWith`, also rethrowing the code's exception unchanged. */
    method CallWith<T, V, E>(env: Env<T>, values: seq<T>, code: Stack<T> -> Result<V, E>) returns (r: Result<V, E>)
      modifies env
      ensures r == code(Within(old(env.frames), values))
      ensures env.frames == old(env.frames)
    {
      var carrier := CreateCallChain(values);
      if carrier.Some? {
        r := env.Run(carrier.value, code);
      } else {
        r := code(env.frames);
      }
    }

    /**
     * Inside the protected code the first min(members, values) members read
     * their supplied values; every later member reads what it read outside.
     */
    lemma ReadInside<T>(s: Stack<T>, values: seq<T>)
      requires DistinctIds(scopedValues)
      ensures |Get(Within(s, values))| == |scopedValues|
      ensures forall i :: 0 <= i < |scopedValues| ==>
        Get(Within(s, values))[i] == if i < |values| then Some(values[i]) else Get(s)[i]
    {
      forall i | 0 <= i < |scopedValues|
        ensures Get(Within(s, values))[i] == if i < |values| then Some(values[i]) else Get(s)[i]
      {
        var x := scopedValues[i].id;
        match CallChain(scopedValues, values)
        case None =>
        case Some(c) =>
          var bs := c.bindings;
          LookupEnter(s, c, x);
          if i < |values| {
            assert bs[i] == (x, values[i]);
            assert LastFor(bs, i);
          } else {
            assert forall k :: 0 <= k < |bs| ==> bs[k].0 != x;
          }
      }
    }

    /** Variables that are not among the bound members keep their outer values inside the call. */
    lemma OthersUnchanged<T>(s: Stack<T>, values: seq<T>, x: VarId)
      requires forall i :: 0 <= i < Min(|scopedValues|, |values|) ==> scopedValues[i].id != x
      ensures Lookup(Within(s, values), x) == Lookup(s, x)
    {
      match CallChain(scopedValues, values)
      case None =>
      case Some(c) =>
        LookupEnter(s, c, x);
    }

    /** The code sees the outer environment exactly when no pair is formed; otherwise one new frame. */
    lemma DirectWhenNoPair<T>(s: Stack<T>, values: seq<T>)
      ensures Within(s, values) == s <==> |scopedValues| == 0 || |values| == 0
      ensures |scopedValues| != 0 && |values| != 0 ==> |Within(s, values)| == |s| + 1 && Within(s, values)[..|s|] == s
    {
      if |scopedValues| != 0 && |values| != 0 {
        assert |Within(s, values)| == |s| + 1;
      }
    }

    /** With as many values as members, the group reads back exactly the values supplied. */
    lemma ReadBackAll<T>(s: Stack<T>, values: seq<T>)
      requires DistinctIds(scopedValues) && |values| == |scopedValues|
      ensures Get(Within(s, values)) == seq(|values|, i requires 0 <= i < |values| => Some(values[i]))
    {
      ReadInside(s, values);
    }
  }

  /**
   * On a fresh thread: inside `supplyWith(values, get)` the first
   * min(members, values) members read their values and the rest read `None`;
   * afterwards every member reads `None` again.
   */
  method ReadAroundSupply<T>(g: ScopedValueVarGroup, values: seq<T>) returns (inside: Result<seq<Option<T>>, string>, after: seq<Option<T>>)
    requires DistinctIds(g.scopedValues)
    ensures inside.Ok? && |inside.value| == |g.scopedValues|
    ensures forall i :: 0 <= i < |g.scopedValues| ==>
      inside.value[i] == if i < |values| then Some(values[i]) else None
    ensures after == seq(|g.scopedValues|, i => None)
  {
    var env := new Env<T>();
    inside := g.SupplyWith(env, values, (s: Stack<T>) => Ok(g.Get(s)));
    g.ReadInside(env.frames, values);
    after := g.Get(env.frames);
  }

  /** A group with no members reads the empty list and runs code with no new binding. */
  lemma EmptyGroup<T>(s: Stack<T>, values: seq<T>)
    ensures ScopedValueVarGroup([]).Get(s) == []
    ensures ScopedValueVarGroup([]).Within(s, values) == s
  {
  }
}
