/**
 The memoisation state machine of `kotlin.jvm.internal.CallableReference`,
 as pure functions from one state of the object to the next.

 The object's only mutable field is `reflected`. The state also counts the
 invocations of `computeReflected()` so far, which select the oracle's next
 answer, and the queries the cached delegate has received so far, which
 select the delegate's next answer.
 */
module CallableReference {
  import opened ReflectionTypes

  /** The object's mutable state: the cache field, the oracle invocation
      count and the delegate query count. */
  datatype State = State(reflected: Delegate, calls: nat, queries: nat)

  /** The result of one Java call together with the state it leaves behind. */
  datatype Step<+T> = Step(result: T, next: State)

  /** A freshly constructed reference: nothing cached, oracle never called,
      no delegate queried. */
  function Fresh(): (s: State)
    ensures s.reflected == Null && s.calls == 0 && s.queries == 0
  {
    State(Null, 0, 0)
  }

  /** `compute()`: return the cached delegate, or ask the oracle and store
      its answer (even a null one) in the field. When the oracle throws, the
      store is skipped and the exception propagates. */
  function Compute(s: State, o: Oracle): (r: Step<Outcome<Delegate>>)
    // a filled cache is returned as is, and the oracle is not invoked
    ensures s.reflected != Null ==> r == Step(Ok(s.reflected), s)
    // an empty cache consults the oracle exactly once and returns or throws its answer
    ensures s.reflected == Null ==> r.result == o(s.calls) && r.next.calls == s.calls + 1
    // a returned delegate is what the field holds afterwards
    ensures r.result.Ok? ==> r.next.reflected == r.result.value
    // a thrown exception leaves the field empty
    ensures r.result.Thrown? ==> r.next.reflected == Null
    // the oracle is invoked at most once per call, and no delegate is queried
    ensures r.next.calls == s.calls || r.next.calls == s.calls + 1
    ensures r.next.queries == s.queries
  {
    var result := s.reflected;
    if result == Null then
      match o(s.calls)
      case Ok(computed) => Step(Ok(computed), s.(reflected := computed, calls := s.calls + 1))
      case Thrown(e) => Step(Thrown(e), s.(calls := s.calls + 1))
    else
      Step(Ok(result), s)
  }

  /** `getReflected()`: `compute()`, except that a delegate which is the
      reference itself means no reflection backend is available. */
  function GetReflected(s: State, o: Oracle): (r: Step<Outcome<Delegate>>)
    // the state changes exactly as under compute(), also when it throws
    ensures r.next == Compute(s, o).next
    // it returns exactly when compute() returns something other than the object itself ...
    ensures r.result.Ok? <==> Compute(s, o).result.Ok? && Compute(s, o).result.value != Self
    // ... and then hands compute()'s result through unchanged
    ensures r.result.Ok? ==> r.result == Compute(s, o).result
    // the object itself becomes the reflection-not-supported error
    ensures Compute(s, o).result == Ok(Self) ==> r.result == Thrown(ReflectionNotSupported)
    // an exception from compute() propagates unchanged
    ensures Compute(s, o).result.Thrown? ==> r.result == Compute(s, o).result
  {
    var c := Compute(s, o);
    match c.result
    case Thrown(e) => Step(Thrown(e), c.next)
    case Ok(d) =>
      if d == Self then Step(Thrown(ReflectionNotSupported), c.next)
      else Step(Ok(d), c.next)
  }

  /** Every delegating accessor (`getParameters`, ..., `isAbstract`, `call`,
      `callBy`): `getReflected().<query>`, with the query's arguments
      forwarded to the delegate. */
  function Invoke(s: State, o: Oracle, b: Backend, q: Query): (r: Step<Outcome<Obj>>)
    // the cache and the oracle count change exactly as under getReflected()
    ensures r.next.reflected == Compute(s, o).next.reflected
    ensures r.next.calls == Compute(s, o).next.calls
    // an exception from compute() propagates unchanged
    ensures Compute(s, o).result.Thrown? ==> r.result == Thrown(Compute(s, o).result.error)
    // the object itself becomes the reflection-not-supported error
    ensures Compute(s, o).result == Ok(Self) ==> r.result == Thrown(ReflectionNotSupported)
    // a null delegate is dereferenced
    ensures Compute(s, o).result == Ok(Null) ==> r.result == Thrown(NullPointer)
    // a real delegate is queried once more, with the very same query and arguments
    ensures Compute(s, o).result.Ok? && Compute(s, o).result.value.Other? ==>
      r.result == b(Compute(s, o).result.value.id, s.queries, q) && r.next.queries == s.queries + 1
    // otherwise no delegate is queried
    ensures !(Compute(s, o).result.Ok? && Compute(s, o).result.value.Other?) ==> r.next.queries == s.queries
  {
    var c := Compute(s, o);
    match c.result
    case Thrown(e) => Step(Thrown(e), c.next)
    case Ok(Self) => Step(Thrown(ReflectionNotSupported), c.next)
    case Ok(Null) => Step(Thrown(NullPointer), c.next)
    case Ok(Other(id)) => Step(b(id, c.next.queries, q), c.next.(queries := c.next.queries + 1))
  }

  /** The three identifying getters that generated subclasses override. */
  datatype Identity = Owner | Name | Signature

  /** `getOwner()`, `getName()`, `getSignature()` in the base class: they
      always throw, and neither read nor write the cache. */
  function GetIdentity(s: State, which: Identity): (r: Step<Outcome<Obj>>)
    ensures r.result == Thrown(AbstractMethod)
    ensures r.next == s
  {
    Step(Thrown(AbstractMethod), s)
  }
}
