# CallableReference: lazy reflective delegate, modelled in Dafny

`kotlin.jvm.internal.CallableReference` is the superclass of every class the
Kotlin compiler generates for a callable reference (`::foo`). It holds one
mutable field, `reflected`, which caches the full reflective descriptor
returned by the subclass's `computeReflected()`. `compute()` fills the cache
lazily, `getReflected()` turns "the descriptor is this very object" (no
reflection backend on the classpath) into a `KotlinReflectionNotSupportedError`,
every `KCallable` accessor forwards to `getReflected()`, and the identifying
getters `getOwner`, `getName`, `getSignature` throw `AbstractMethodError`
unless a subclass overrides them.

The model:

- `reflection_types.dfy` (`ReflectionTypes`): the field's contents as
  `Delegate = Null | Self | Other(id)` (Java reference identity becomes an
  explicit case), exceptions as `Throwable`, a Java call's outcome as
  `Outcome`, and one `Query` constructor per delegating accessor (`call` and
  `callBy` carry their arguments). `computeReflected()` is an uninterpreted
  `Oracle`: its k-th invocation returns or throws `o(k)`. The loaded
  descriptor is an uninterpreted `Backend`: its answer to its k-th query is
  `b(id, k, q)`, so repeated queries may answer differently.
- `callable_reference.dfy` (`CallableReference`): the object's state
  (`reflected`, a count of oracle invocations and a count of delegate
  queries) and each method as a pure function from a state to a result and
  the next state.
- `callable_reference_properties.dfy` (`CallableReferenceProperties`): a
  sequence of calls on one object (`Run`), an independent description of the
  steady state once the cache is filled (`Settled`), and the lemmas.
- `callable_reference_object.dfy` (`CallableReferenceObject`): the same
  machine as a class with mutable fields, each method proved to step exactly
  as the functional model.

Two behaviours of the Java code shape the model:

- A null answer from `computeReflected()` is not cached: line 44 writes null
  back into `reflected`, so the next call asks again. An exception from
  `computeReflected()` skips line 44 altogether, leaves `reflected` null and
  propagates; the next call asks again too.
- `getReflected()` has three outcomes: null is returned as is, the object
  itself becomes `KotlinReflectionNotSupportedError`, and any other delegate
  is returned. A null result makes every accessor throw a
  `NullPointerException` when it dereferences it.

## Model

| member | source | states |
|---|---|---|
| CallableReference.Fresh | core/runtime.jvm/src/kotlin/jvm/internal/CallableReference.java:36 | a new reference has an empty (null) cache, has never invoked the oracle and has never queried a delegate |
| CallableReference.Compute | core/runtime.jvm/src/kotlin/jvm/internal/CallableReference.java:40-47 | a filled cache is returned without invoking the oracle; an empty one invokes it exactly once and returns or throws its answer; a returned delegate is what the field holds afterwards; a thrown exception leaves the field empty |
| CallableReference.GetReflected | core/runtime.jvm/src/kotlin/jvm/internal/CallableReference.java:49-55 | returns exactly when compute() returns something other than the object itself, and then returns compute()'s result unchanged; the object itself becomes the reflection-not-supported error; an exception from compute() propagates; the cache is updated as by compute() even when it throws |
| CallableReference.Invoke | core/runtime.jvm/src/kotlin/jvm/internal/CallableReference.java:90-140 | every delegating accessor: compute()'s exception propagates, the object itself gives the reflection-not-supported error, a null delegate gives a null-pointer failure, and a real delegate is queried once more with the same query and arguments and its answer (or exception) is returned |
| CallableReference.GetIdentity | core/runtime.jvm/src/kotlin/jvm/internal/CallableReference.java:63-85 | getOwner, getName and getSignature always throw AbstractMethodError and leave the state unchanged |
| CallableReferenceProperties.Run | core/runtime.jvm/src/kotlin/jvm/internal/CallableReference.java:35-141 | a sequence of calls on one object yields one reply per call |
| CallableReferenceProperties.PerformSettled | core/runtime.jvm/src/kotlin/jvm/internal/CallableReference.java:40-140 | on a filled cache, any single call answers as the cache-free reference behaviour says and changes nothing but the delegate's query count |
| CallableReferenceProperties.FilledCacheIsFinal | core/runtime.jvm/src/kotlin/jvm/internal/CallableReference.java:40-140 | once the cache is non-null, every later call of any kind answers as the reference behaviour says with the delegate queried afresh by each accessor call, the field never changes and the oracle is never invoked again |
| CallableReferenceProperties.ComputeIdempotent | core/runtime.jvm/src/kotlin/jvm/internal/CallableReference.java:40-47 | after compute() has returned a non-null delegate, every later compute() returns that same delegate, and the oracle was invoked exactly once if the cache started empty |
| CallableReferenceProperties.FreshComputesOnce | core/runtime.jvm/src/kotlin/jvm/internal/CallableReference.java:40-47 | a fresh reference whose oracle first returns a non-null delegate ends any call sequence starting with compute() with that delegate cached and exactly one oracle invocation |
| CallableReferenceProperties.EmptyAnswerIsRetried | core/runtime.jvm/src/kotlin/jvm/internal/CallableReference.java:41-46 | a null or thrown oracle answer leaves the cache empty, so the next compute() invokes the oracle again and returns or throws its next answer |
| CallableReferenceProperties.OnlyEmptyAnswersAreRetried | core/runtime.jvm/src/kotlin/jvm/internal/CallableReference.java:40-55 | over any call sequence from an empty cache, the oracle is invoked at most once per call, every answer but the last was null or thrown, and the field holds what the last answer stored (null if none) |
| CallableReferenceProperties.EmptyAnswersConsumeOnePerCall | core/runtime.jvm/src/kotlin/jvm/internal/CallableReference.java:40-55 | while the oracle answers null or throws, every call other than an identity getter invokes it exactly once and the cache stays empty |
| CallableReferenceProperties.SelfFailsForever | core/runtime.jvm/src/kotlin/jvm/internal/CallableReference.java:49-55 | once compute() yields the object itself, every later getReflected() and accessor throws the reflection-not-supported error, no delegate is queried and the oracle is never asked again |
| CallableReferenceProperties.AccessorFollowsGetReflected | core/runtime.jvm/src/kotlin/jvm/internal/CallableReference.java:90-140 | an accessor fails as getReflected() fails, dereferences a null result, and otherwise asks the delegate the same query; it throws the reflection-not-supported error exactly when getReflected() does or the delegate itself does |
| CallableReferenceProperties.CallsForwardArgumentsEachTime | core/runtime.jvm/src/kotlin/jvm/internal/CallableReference.java:111-119 | call(args) then callBy(named) on a reference with a real delegate reach the delegate as its next two queries, carrying exactly those arguments |
| CallableReferenceProperties.IdentityIgnoresCache | core/runtime.jvm/src/kotlin/jvm/internal/CallableReference.java:63-85 | the identifying getters give the same answers whatever the cache holds, always throw AbstractMethodError, and leave the state unchanged |
| CallableReferenceObject.Reference.Compute | core/runtime.jvm/src/kotlin/jvm/internal/CallableReference.java:40-47 | the mutable-field implementation steps exactly as the functional compute() |
| CallableReferenceObject.Reference.GetReflected | core/runtime.jvm/src/kotlin/jvm/internal/CallableReference.java:49-55 | the mutable-field implementation steps exactly as the functional getReflected() |
| CallableReferenceObject.Reference.Invoke | core/runtime.jvm/src/kotlin/jvm/internal/CallableReference.java:90-140 | the mutable-field implementation steps exactly as the functional accessor |

## Left out

- The reflection backend itself (`KCallable`, `KParameter`, `KType`, annotations, visibility): it is loaded dynamically, so it is the uninterpreted `Backend`, and all accessor return types collapse into one opaque `Obj`.
- Concurrency: `reflected` is not synchronised, so two threads may both see null and invoke `computeReflected()` twice; the model is sequential.
- Subclass overrides of `getOwner`, `getName`, `getSignature` and `computeReflected()`: they are generated per callable reference; `computeReflected()` is the `Oracle` parameter.
- The invocation and query counters are instrumentation of the model, not fields of the class.
