# Scoped-value context variables

A model of the two adapters in `net.tascalate.concurrent.svar`. They present the runtime's scoped values through the
uniform context-variable contract: `get`, `runWith`, `supplyWith` and `callWith`.

- `ScopedValueVar` wraps one scoped value. `get` reads it, or gives `null` when nothing is bound. The three
  `*With` operations bind one value for the extent of one call.
- `ScopedValueVarGroup` wraps an ordered list of scoped values. `get` reads every member in order, giving `null`
  for a member that is not bound. The `*With` operations take a list of values and build one carrier. They pair
  members and values by position, stop at the shorter list, and layer the pairs left to right. When no pair is
  formed there is no carrier, and the code runs directly.
- The `of` factories build a single adapter, a group, or the empty context variable. The empty variable is chosen
  for a `null` or empty list.

The runtime's scoped-value primitive is modelled as a small concrete semantics (module `ScopedValues`):

- The thread's dynamic environment is a stack of frames, and each frame maps a variable identity to a value.
- A lookup searches from the top frame.
- A carrier is a sequence of bindings.
- Running code under a carrier pushes that carrier's frame, runs the code and pops the frame. The pop happens on
  both exits, normal return and exception.
- Protected code is a function from the environment it sees to `Ok(result)` or `Err(exception)`.

`Env` is a class whose `frames` field holds the thread's stack. The adapters' `*With` operations are methods that
modify it. Adapters are immutable values: their member list is a datatype field, and no operation touches it.
`null` on a read is `None`. A `null` list given to `of(list)` is `None` as well.

Files: `wrappers.dfy` (Option, Result), `scoped_values.dfy` (the runtime model), `scoped_value_var_group.dfy`
(the group adapter), `scoped_value_var.dfy` (the single adapter and the factories).

## Model

| member | source | states |
|---|---|---|
| `ScopedValues.Lookup` | src/main/java/net/tascalate/concurrent/svar/ScopedValueVar.java:41 | the lookup gives `None` exactly when no frame binds the variable; otherwise it gives the value from a frame that binds it and has no frame above it binding it too (the innermost binding wins) |
| `ScopedValues.IsBound` | src/main/java/net/tascalate/concurrent/svar/ScopedValueVar.java:41 | `isBound()` holds exactly when some frame of the environment binds the variable |
| `ScopedValues.Value` | src/main/java/net/tascalate/concurrent/svar/ScopedValueVar.java:41 | `get()`, asked only of a bound variable, gives the value of a frame that binds it with no frame above binding it too |
| `ScopedValues.ValueOrNull` | src/main/java/net/tascalate/concurrent/svar/ScopedValueVarGroup.java:35 | `isBound() ? get() : null` is exactly the lookup of that variable in the environment |
| `ScopedValues.Where` | src/main/java/net/tascalate/concurrent/svar/ScopedValueVarGroup.java:84 | `ScopedValue.where(sv, v)` is a carrier holding the one binding of `v` to `sv` |
| `ScopedValues.Carrier.Where` | src/main/java/net/tascalate/concurrent/svar/ScopedValueVarGroup.java:86 | `c.where(sv, v)` keeps every binding of `c` in place and adds the new binding after them |
| `ScopedValues.FrameOf` | src/main/java/net/tascalate/concurrent/svar/ScopedValueVarGroup.java:83-87 | the frame a carrier pushes binds exactly the carrier's variables, each to the value of its last binding |
| `ScopedValues.Enter` | src/main/java/net/tascalate/concurrent/svar/ScopedValueVarGroup.java:47-48 | running under a carrier puts exactly one frame over the caller's environment, binding exactly the carrier's variables; removing that frame gives the caller's environment back |
| `ScopedValues.WhereLayers` | src/main/java/net/tascalate/concurrent/svar/ScopedValueVarGroup.java:86 | under `c.where(sv, v)` the variable `sv` reads `v`, and every other variable reads what it reads under `c` |
| `ScopedValues.LookupEnter` | src/main/java/net/tascalate/concurrent/svar/ScopedValueVarGroup.java:48 | pushing a carrier's frame shadows exactly the variables that frame binds; every other variable reads as before |
| `ScopedValues.Env.Run` | src/main/java/net/tascalate/concurrent/svar/ScopedValueVarGroup.java:47-48 | running under a carrier gives the code's own outcome, computed in the environment with the carrier's frame on top, and leaves the environment exactly as it was |
| `VarGroup.ScopedValueVarGroup.Get` | src/main/java/net/tascalate/concurrent/svar/ScopedValueVarGroup.java:33-37 | the read has one entry per member, in member order; entry i is member i's current value, or `None` when it is unbound |
| `VarGroup.Zip` | src/main/java/net/tascalate/concurrent/svar/ScopedValueVarGroup.java:78-81 | walking both lists together yields min(members, values) pairs, and pair i is member i with value i |
| `VarGroup.ScopedValueVarGroup.Within` | src/main/java/net/tascalate/concurrent/svar/ScopedValueVarGroup.java:46-51 | the code runs in the caller's environment unchanged when either list is empty, and otherwise under one frame of the positional pairs |
| `VarGroup.CallChain` | src/main/java/net/tascalate/concurrent/svar/ScopedValueVarGroup.java:74-90 | there is no carrier exactly when either list is empty; otherwise the carrier has min(members, values) bindings and binding i pairs member i with value i |
| `VarGroup.ScopedValueVarGroup.CreateCallChain` | src/main/java/net/tascalate/concurrent/svar/ScopedValueVarGroup.java:74-90 | the loop over both lists returns no carrier exactly when either list is empty, and otherwise the positional pairing of the two lists up to the shorter one |
| `VarGroup.ScopedValueVarGroup.RunWith` | src/main/java/net/tascalate/concurrent/svar/ScopedValueVarGroup.java:45-52 | the code's outcome, normal or exceptional, is returned unchanged; the code sees the carrier's frame on top, or the unchanged environment when there is no carrier; afterwards the environment is as before |
| `VarGroup.ScopedValueVarGroup.SupplyWith` | src/main/java/net/tascalate/concurrent/svar/ScopedValueVarGroup.java:55-62 | the code's result is returned unchanged, computed under the carrier or directly when there is none; afterwards the environment is as before |
| `VarGroup.ScopedValueVarGroup.CallWith` | src/main/java/net/tascalate/concurrent/svar/ScopedValueVarGroup.java:65-72 | the code's result or its exact exception is returned, computed under the carrier or directly when there is none; afterwards the environment is as before |
| `VarGroup.ScopedValueVarGroup.ReadInside` | src/main/java/net/tascalate/concurrent/svar/ScopedValueVarGroup.java:78-88 | with distinct members, reading the group inside the call gives value i for each of the first min(members, values) members, and each later member keeps its outer value or `None` |
| `VarGroup.ScopedValueVarGroup.OthersUnchanged` | src/main/java/net/tascalate/concurrent/svar/ScopedValueVarGroup.java:78-88 | a variable that is not among the paired members reads inside the call what it read outside (bindings shadow, they do not overwrite) |
| `VarGroup.ScopedValueVarGroup.DirectWhenNoPair` | src/main/java/net/tascalate/concurrent/svar/ScopedValueVarGroup.java:45-72 | the code sees the unchanged environment if and only if no pair is formed; otherwise it sees exactly one new frame over the outer environment |
| `VarGroup.ScopedValueVarGroup.ReadBackAll` | src/main/java/net/tascalate/concurrent/svar/ScopedValueVarGroup.java:74-90 | with distinct members and as many values as members, the group read inside the call is exactly the supplied values, in order |
| `VarGroup.ReadAroundSupply` | src/main/java/net/tascalate/concurrent/svar/ScopedValueVarGroup.java:55-62 | on a fresh thread, the group read inside `supplyWith` gives the supplied values for the first min(members, values) members and `None` for the rest; afterwards every member reads `None` again |
| `VarGroup.EmptyGroup` | src/main/java/net/tascalate/concurrent/svar/ScopedValueVarGroup.java:33-52 | a group without members reads the empty list and runs the code with no new binding |
| `SingleVar.ScopedValueVar.Get` | src/main/java/net/tascalate/concurrent/svar/ScopedValueVar.java:40-42 | the read is the delegate's innermost bound value; it is `None` exactly when no frame binds the delegate |
| `SingleVar.ScopedValueVar.RunWith` | src/main/java/net/tascalate/concurrent/svar/ScopedValueVar.java:45-47 | the code runs with one new frame binding the delegate to the value; its outcome is returned unchanged; afterwards the environment is as before |
| `SingleVar.ScopedValueVar.SupplyWith` | src/main/java/net/tascalate/concurrent/svar/ScopedValueVar.java:50-52 | the code's result is returned unchanged, computed with the delegate bound to the value; afterwards the environment is as before |
| `SingleVar.ScopedValueVar.CallWith` | src/main/java/net/tascalate/concurrent/svar/ScopedValueVar.java:55-57 | the code's result or its exact exception is returned, computed with the delegate bound to the value; the binding is removed in both cases |
| `SingleVar.ScopedValueVar.BoundInside` | src/main/java/net/tascalate/concurrent/svar/ScopedValueVar.java:40-47 | inside `runWith(v, …)` the adapter reads `v`, and every other variable reads what it read outside |
| `SingleVar.ScopedValueVar.Nested` | src/main/java/net/tascalate/concurrent/svar/ScopedValueVar.java:45-47 | in `runWith(a, … runWith(b, …) …)` the inner code reads `b`, the outer code reads `a`; the return to each environment after each call is the restore that `RunWith` promises |
| `SingleVar.ReadAroundSupply` | src/main/java/net/tascalate/concurrent/svar/ScopedValueVar.java:40-52 | on a fresh thread the adapter reads `None`, reads `v` inside `supplyWith(v, get)`, and reads `None` again afterwards |
| `SingleVar.FailureAroundCall` | src/main/java/net/tascalate/concurrent/svar/ScopedValueVar.java:55-57 | an exception thrown by the code reaches the caller of `callWith` unchanged, and the binding is gone afterwards |
| `SingleVar.Of` | src/main/java/net/tascalate/concurrent/svar/ScopedValueVar.java:64-66 | `of(scopedValue)` wraps exactly the given scoped value |
| `SingleVar.OfList` | src/main/java/net/tascalate/concurrent/svar/ScopedValueVar.java:73-79 | `of(list)` gives the empty context variable if and only if the list is `null` or empty, and otherwise a group over that same list |
| `SingleVar.OfVarargs` | src/main/java/net/tascalate/concurrent/svar/ScopedValueVar.java:68-71 | `of(sv1, sv2, …)` is the list factory applied to the arguments in the same order; it is empty exactly when there are no arguments |

Reading a variable twice with no binding in between gives equal results. In the model this holds by construction,
since both reads are a function of the same environment.

## Left out

- The runtime's own `ScopedValue` and `Carrier` implementation is not part of this model. It is replaced by the
  frame-stack semantics above, and the push, lookup and pop behaviour the adapters rely on is proved about that
  semantics.
- Inheritance of bindings by other threads, virtual threads or structured-concurrency subtasks is left out. The
  adapters delegate it entirely to the runtime.
- Cancellation and interruption are left out. The code exits only by returning or by throwing.
- The internals of the empty context variable are left out. The model records only that the list factories select
  it (`SingleVar.ContextVar.Empty`); its reads and bindings are not modelled.
- `toString` is left out, because it only formats text.
- Java generics, wildcards and the unchecked cast in `createCallChain` are left out. All scoped values hold values
  of one type parameter.
- Whether the runtime accepts `null` as a bound value is left out. A read of `None` means "not bound".
- `VarGroup.ScopedValueVarGroup`: the member list is modelled as a value. The source keeps the caller's list by
  reference (`of(list)` passes it straight to the group, which stores it), so a caller that later changes a
  mutable list changes the group's members and the length of `get()`. That aliasing is not modelled.
- `VarGroup.ScopedValueVarGroup.RunWith`, `SupplyWith` and `CallWith`: a `null` values list throws a
  `NullPointerException` when `createCallChain` asks it for an iterator, before any code runs. This is not
  modelled, because the model's values list is a sequence and cannot be `null`.
- `SingleVar.OfList`: a list with a `null` element still builds a group. That group's `get()` and
  `createCallChain` then throw a `NullPointerException` on the `null` member. This is not modelled, because the
  model's scoped values cannot be `null`.
- `SingleVar.Of`: `of(null)` builds an adapter whose `get()` throws a `NullPointerException`. This is not
  modelled, because a model scoped value cannot be `null`.
- `SingleVar.OfVarargs`: `List.of` throws on a `null` array or a `null` element. This is not modelled, because the
  model's sequences have no `null`.
- `VarGroup.ScopedValueVarGroup.ReadInside`: the lemma requires distinct members. With a repeated member, the
  runtime's choice of which binding wins inside one carrier is not visible here. The model's frame keeps the last one.
- Protected code is a function of the environment it sees. It cannot itself change the environment across the
  call. Nested binding inside the code is stated on environments (`SingleVar.ScopedValueVar.Nested`), not as a
  method calling a method.
- `Runnable`, `Supplier` and `Callable` differ only in Java's checked-exception typing. All three are modelled as
  code that returns a result or throws an exception.
