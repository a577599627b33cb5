/**
 The same memoisation as an object with a mutable `reflected` field, each
 method proved to step exactly as the functional model in
 `CallableReference` does.
 */
module CallableReferenceObject {
  import opened ReflectionTypes
  import CallableReference

  class Reference {
    /** The cache field; `Null` stands for Java's null. */
    var reflected: Delegate
    /** How often `computeReflected()` has been invoked. */
    var calls: nat
    /** How many queries the cached delegate has received. */
    var queries: nat
    /** The subclass's `computeReflected()`. */
    const oracle: Oracle

    function Model(): CallableReference.State
      reads this
    {
      CallableReference.State(reflected, calls, queries)
    }

    constructor(oracle: Oracle)
      ensures Model() == CallableReference.Fresh() && this.oracle == oracle
    {
      reflected := Null;
      calls := 0;
      queries := 0;
      this.oracle := oracle;
    }

    method Compute() returns (result: Outcome<Delegate>)
      modifies this
      ensures CallableReference.Compute(old(Model()), oracle) == CallableReference.Step(result, Model())
    {
      var cached := reflected;
      if cached == Null {
        result := oracle(calls);
        calls := calls + 1;
        if result.Ok? {
          reflected := result.value;
        }
      } else {
        result := Ok(cached);
      }
    }

    method GetReflected() returns (result: Outcome<Delegate>)
      modifies this
      ensures CallableReference.GetReflected(old(Model()), oracle) == CallableReference.Step(result, Model())
    {
      result := Compute();
      if result == Ok(Self) {
        result := Thrown(ReflectionNotSupported);
      }
    }

    method Invoke(b: Backend, q: Query) returns (result: Outcome<Obj>)
      modifies this
      ensures CallableReference.Invoke(old(Model()), oracle, b, q) == CallableReference.Step(result, Model())
    {
      var computed := Compute();
      match computed
      case Thrown(e) => result := Thrown(e);
      case Ok(Self) => result := Thrown(ReflectionNotSupported);
      case Ok(Null) => result := Thrown(NullPointer);
      case Ok(Other(id)) =>
        result := b(id, queries, q);
        queries := queries + 1;
    }
  }
}
