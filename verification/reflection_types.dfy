/**
 The values a Kotlin callable reference exchanges with the reflection backend.

 The backend itself (the real `KCallable` implementation, loaded dynamically)
 is not modelled: it appears here only as two uninterpreted functions, the
 `Oracle` that stands for `computeReflected()` and the `Backend` that answers
 the reflective queries of a descriptor.
 */
module ReflectionTypes {

  /** An opaque JVM object reference: an argument, a parameter list, a type, ... */
  datatype Obj = Obj(ref: nat)

  /** What the `reflected` field (or `computeReflected()`) can hold:
      the null reference, the callable reference object itself, or some
      other `KCallable`, identified by `id`. Java reference identity is
      replaced by these explicit cases. */
  datatype Delegate = Null | Self | Other(id: nat)

  /** The exceptions the class can raise or let through. */
  datatype Throwable =
    | ReflectionNotSupported   // KotlinReflectionNotSupportedError
    | AbstractMethod           // AbstractMethodError
    | NullPointer              // dereferencing a null delegate
    | Raised(code: nat)        // anything computeReflected() or the delegate throws

  /** A Java call either returns a value or throws. */
  datatype Outcome<+T> = Ok(value: T) | Thrown(error: Throwable)

  /** One constructor per delegating accessor of `KCallable`; `call` and
      `callBy` carry the arguments they forward. */
  datatype Query =
    | Parameters
    | ReturnType
    | Annotations
    | TypeParameters
    | Call(args: seq<Obj>)
    | CallBy(namedArgs: map<Obj, Obj>)
    | Visibility
    | IsFinal
    | IsOpen
    | IsAbstract

  /** `computeReflected()`: its k-th invocation (counting from 0) returns
      or throws `o(k)`. The subclass may answer differently on each
      invocation. */
  type Oracle = nat -> Outcome<Delegate>

  /** The descriptor `Other(id)`'s answer to the query it receives as its
      k-th query (counting from 0), or the exception it throws: every query
      runs the delegate anew, so repeated queries may answer differently. */
  type Backend = (nat, nat, Query) -> Outcome<Obj>
}
