/**
 Properties of a callable reference over a whole sequence of calls made on
 one object: idempotence of `compute()` once it has produced a non-null
 delegate, retrying after a null answer, and the steady-state behaviour of
 every public member once the cache is filled.
 */
module CallableReferenceProperties {
  import opened ReflectionTypes
  import opened CallableReference

  /** A call made on the object. */
  datatype Op =
    | ComputeOp
    | GetReflectedOp
    | IdentityOp(which: Identity)
    | InvokeOp(query: Query)

  /** What such a call returns: a delegate (from `compute()` and
      `getReflected()`) or an object (from the accessors). */
  datatype Reply = Ref(delegate: Delegate) | Value(obj: Obj)

  function LiftDelegate(out: Outcome<Delegate>): Outcome<Reply> {
    match out
    case Ok(d) => Ok(Ref(d))
    case Thrown(e) => Thrown(e)
  }

  function LiftObj(out: Outcome<Obj>): Outcome<Reply> {
    match out
    case Ok(x) => Ok(Value(x))
    case Thrown(e) => Thrown(e)
  }

  /** An oracle answer that leaves the cache empty: null, or an exception. */
  predicate LeavesEmpty(a: Outcome<Delegate>) {
    a == Ok(Null) || a.Thrown?
  }

  /** What the field holds after the oracle gave the answer `a`. */
  function Stored(a: Outcome<Delegate>): Delegate {
    match a
    case Ok(d) => d
    case Thrown(_) => Null
  }

  /** One call on the object. */
  function Perform(s: State, o: Oracle, b: Backend, op: Op): Step<Outcome<Reply>> {
    match op
    case ComputeOp =>
      var c := Compute(s, o);
      Step(LiftDelegate(c.result), c.next)
    case GetReflectedOp =>
      var g := GetReflected(s, o);
      Step(LiftDelegate(g.result), g.next)
    case IdentityOp(which) =>
      var g := GetIdentity(s, which);
      Step(LiftObj(g.result), g.next)
    case InvokeOp(q) =>
      var v := Invoke(s, o, b, q);
      Step(LiftObj(v.result), v.next)
  }

  /** A sequence of calls on the object, one after the other. */
  function Run(s: State, o: Oracle, b: Backend, ops: seq<Op>): (r: Step<seq<Outcome<Reply>>>)
    ensures |r.result| == |ops|
    decreases |ops|
  {
    if |ops| == 0 then
      Step([], s)
    else
      var first := Perform(s, o, b, ops[0]);
      var rest := Run(first.next, o, b, ops[1..]);
      Step([first.result] + rest.result, rest.next)
  }

  /** Reference behaviour of an object whose cache holds the non-null
      delegate `d`, written without the cache: what each call answers when
      the delegate has already received `k` queries. */
  function Settled(d: Delegate, b: Backend, k: nat, op: Op): Outcome<Reply>
    requires d != Null
  {
    match op
    case ComputeOp => Ok(Ref(d))
    case GetReflectedOp => if d == Self then Thrown(ReflectionNotSupported) else Ok(Ref(d))
    case IdentityOp(_) => Thrown(AbstractMethod)
    case InvokeOp(q) => if d == Self then Thrown(ReflectionNotSupported) else LiftObj(b(d.id, k, q))
  }

  /** How many queries the call `op` puts to the cached delegate `d`. */
  function Asks(d: Delegate, op: Op): nat {
    if d.Other? && op.InvokeOp? then 1 else 0
  }

  /** How many queries the calls `ops` put to the cached delegate `d`. */
  function AsksAll(d: Delegate, ops: seq<Op>): nat
    decreases |ops|
  {
    if |ops| == 0 then 0 else Asks(d, ops[0]) + AsksAll(d, ops[1..])
  }

  /** How many of the calls `ops` run `compute()`: all but the identity getters. */
  function Computing(ops: seq<Op>): nat
    decreases |ops|
  {
    if |ops| == 0 then 0 else (if ops[0].IdentityOp? then 0 else 1) + Computing(ops[1..])
  }

  /** One call on an object with a filled cache agrees with the reference
      behaviour and changes nothing but the delegate's query count. */
  lemma PerformSettled(s: State, o: Oracle, b: Backend, op: Op)
    requires s.reflected != Null
    ensures Perform(s, o, b, op) ==
      Step(Settled(s.reflected, b, s.queries, op), s.(queries := s.queries + Asks(s.reflected, op)))
  {
  }

  /** Once the cache is filled, every later call answers as `Settled`
      says, with the delegate queried afresh by each accessor call; the
      field never changes and the oracle is never invoked again (for any
      oracle). */
  lemma {:induction false} FilledCacheIsFinal(s: State, o: Oracle, b: Backend, ops: seq<Op>)
    requires s.reflected != Null
    ensures Run(s, o, b, ops).next == s.(queries := s.queries + AsksAll(s.reflected, ops))
    ensures forall i :: 0 <= i < |ops| ==>
      Run(s, o, b, ops).result[i] == Settled(s.reflected, b, s.queries + AsksAll(s.reflected, ops[..i]), ops[i])
    decreases |ops|
  {
    if |ops| > 0 {
      var d := s.reflected;
      var s' := s.(queries := s.queries + Asks(d, ops[0]));
      PerformSettled(s, o, b, ops[0]);
      FilledCacheIsFinal(s', o, b, ops[1..]);
      var r := Run(s, o, b, ops);
      forall i | 0 <= i < |ops|
        ensures r.result[i] == Settled(d, b, s.queries + AsksAll(d, ops[..i]), ops[i])
      {
        if i == 0 {
          assert ops[..i] == [];
        } else {
          assert ops[i] == ops[1..][i - 1];
          assert ops[..i][0] == ops[0];
          assert ops[..i][1..] == ops[1..][..i - 1];
        }
      }
    }
  }

  /** Idempotence of `compute()`: once a call has returned a non-null
      delegate, every later `compute()` returns that same delegate, and the
      oracle has been invoked exactly once if the cache started empty (never
      if it started filled). */
  lemma {:induction false} ComputeIdempotent(s: State, o: Oracle, b: Backend, ops: seq<Op>)
    requires Compute(s, o).result.Ok? && Compute(s, o).result.value != Null
    ensures var c := Compute(s, o);
      forall i :: 0 <= i < |ops| && ops[i] == ComputeOp ==> Run(c.next, o, b, ops).result[i] == Ok(Ref(c.result.value))
    ensures Run(Compute(s, o).next, o, b, ops).next.reflected == Compute(s, o).result.value
    ensures Run(Compute(s, o).next, o, b, ops).next.calls == s.calls + (if s.reflected == Null then 1 else 0)
  {
    FilledCacheIsFinal(Compute(s, o).next, o, b, ops);
  }

  /** A fresh reference whose oracle first returns a non-null delegate is
      asked exactly once, however many calls follow the first `compute()`. */
  lemma FreshComputesOnce(o: Oracle, b: Backend, ops: seq<Op>)
    requires o(0).Ok? && o(0).value != Null
    ensures Run(Fresh(), o, b, [ComputeOp] + ops).next.reflected == o(0).value
    ensures Run(Fresh(), o, b, [ComputeOp] + ops).next.calls == 1
  {
    var c := Compute(Fresh(), o);
    FilledCacheIsFinal(c.next, o, b, ops);
    assert ([ComputeOp] + ops)[1..] == ops;
  }

  /** Neither a null answer nor an exception is cached: the next
      `compute()` consults the oracle again, at its next invocation. */
  lemma EmptyAnswerIsRetried(s: State, o: Oracle)
    requires s.reflected == Null && LeavesEmpty(o(s.calls))
    ensures Compute(s, o).result == o(s.calls)
    ensures Compute(s, o).next.reflected == Null
    ensures Compute(Compute(s, o).next, o).result == o(s.calls + 1)
    ensures Compute(Compute(s, o).next, o).next.calls == s.calls + 2
  {
  }

  /** Over any sequence of calls the oracle is invoked again only after a
      null or thrown answer: every oracle answer consumed, except possibly
      the last, left the cache empty; the field holds what the last answer
      stored; and at most one invocation happens per call. */
  lemma {:induction false} OnlyEmptyAnswersAreRetried(s: State, o: Oracle, b: Backend, ops: seq<Op>)
    requires s.reflected == Null
    ensures var r := Run(s, o, b, ops);
      && s.calls <= r.next.calls <= s.calls + |ops|
      && (forall k :: s.calls <= k < r.next.calls - 1 ==> LeavesEmpty(o(k)))
      && (r.next.calls == s.calls ==> r.next.reflected == Null)
      && (r.next.calls > s.calls ==> r.next.reflected == Stored(o(r.next.calls - 1)))
    decreases |ops|
  {
    if |ops| > 0 {
      var first := Perform(s, o, b, ops[0]);
      if ops[0].IdentityOp? {
        assert first.next == s;
        OnlyEmptyAnswersAreRetried(s, o, b, ops[1..]);
      } else {
        assert first.next.reflected == Stored(o(s.calls)) && first.next.calls == s.calls + 1;
        if LeavesEmpty(o(s.calls)) {
          OnlyEmptyAnswersAreRetried(first.next, o, b, ops[1..]);
        } else {
          FilledCacheIsFinal(first.next, o, b, ops[1..]);
        }
      }
    }
  }

  /** While the oracle keeps answering null or throwing, every call other
      than an identity getter uses up exactly one oracle answer, and the
      cache stays empty. */
  lemma {:induction false} EmptyAnswersConsumeOnePerCall(s: State, o: Oracle, b: Backend, ops: seq<Op>)
    requires s.reflected == Null
    requires forall k :: s.calls <= k < s.calls + |ops| ==> LeavesEmpty(o(k))
    ensures Run(s, o, b, ops).next.calls == s.calls + Computing(ops)
    ensures Run(s, o, b, ops).next.reflected == Null
    decreases |ops|
  {
    if |ops| > 0 {
      var first := Perform(s, o, b, ops[0]);
      if !ops[0].IdentityOp? {
        assert LeavesEmpty(o(s.calls));
      }
      EmptyAnswersConsumeOnePerCall(first.next, o, b, ops[1..]);
    }
  }

  /** A delegate other than a real callable is never queried. */
  lemma {:induction false} NoDelegateNoQueries(d: Delegate, ops: seq<Op>)
    requires !d.Other?
    ensures AsksAll(d, ops) == 0
    decreases |ops|
  {
    if |ops| > 0 {
      NoDelegateNoQueries(d, ops[1..]);
    }
  }

  /** A reference whose `compute()` yields the object itself is broken for
      good: every later `getReflected()` and every accessor throws the
      reflection-not-supported error, and the oracle is not asked again. */
  lemma {:induction false} SelfFailsForever(s: State, o: Oracle, b: Backend, ops: seq<Op>)
    requires Compute(s, o).result == Ok(Self)
    ensures Run(Compute(s, o).next, o, b, ops).next == Compute(s, o).next
    ensures forall i :: 0 <= i < |ops| && !ops[i].ComputeOp? && !ops[i].IdentityOp? ==>
      Run(Compute(s, o).next, o, b, ops).result[i] == Thrown(ReflectionNotSupported)
  {
    NoDelegateNoQueries(Self, ops);
    FilledCacheIsFinal(Compute(s, o).next, o, b, ops);
  }

  /** Each accessor behaves as a call on `getReflected()`'s result: it
      fails as `getReflected()` fails, dereferences a null result, and
      otherwise asks the delegate the same query; so it fails with the
      reflection-not-supported error exactly when `getReflected()` does or
      the delegate itself throws that error. */
  lemma AccessorFollowsGetReflected(s: State, o: Oracle, b: Backend, q: Query)
    ensures Invoke(s, o, b, q).next.reflected == GetReflected(s, o).next.reflected
    ensures Invoke(s, o, b, q).next.calls == GetReflected(s, o).next.calls
    ensures GetReflected(s, o).result.Thrown? ==> Invoke(s, o, b, q).result == Thrown(GetReflected(s, o).result.error)
    ensures GetReflected(s, o).result == Ok(Null) ==> Invoke(s, o, b, q).result == Thrown(NullPointer)
    ensures GetReflected(s, o).result.Ok? && GetReflected(s, o).result.value.Other? ==>
      Invoke(s, o, b, q).result == b(GetReflected(s, o).result.value.id, s.queries, q)
    ensures Invoke(s, o, b, q).result == Thrown(ReflectionNotSupported) <==>
      GetReflected(s, o).result == Thrown(ReflectionNotSupported) ||
      (GetReflected(s, o).result.Ok? && GetReflected(s, o).result.value.Other? &&
       b(GetReflected(s, o).result.value.id, s.queries, q) == Thrown(ReflectionNotSupported))
  {
  }

  /** `call` and `callBy` forward their arguments untouched, and each call
      runs the delegate again: on a reference with a real delegate cached,
      `call(args)` followed by `callBy(named)` reach the delegate as its next
      two queries, carrying exactly `args` and then exactly `named`. */
  lemma CallsForwardArgumentsEachTime(s: State, o: Oracle, b: Backend, args: seq<Obj>, named: map<Obj, Obj>)
    requires s.reflected.Other?
    ensures Run(s, o, b, [InvokeOp(Call(args)), InvokeOp(CallBy(named))]).result ==
      [LiftObj(b(s.reflected.id, s.queries, Call(args))), LiftObj(b(s.reflected.id, s.queries + 1, CallBy(named)))]
    ensures Run(s, o, b, [InvokeOp(Call(args)), InvokeOp(CallBy(named))]).next == s.(queries := s.queries + 2)
  {
    var ops := [InvokeOp(Call(args)), InvokeOp(CallBy(named))];
    var s1 := s.(queries := s.queries + 1);
    assert ops[1..] == [InvokeOp(CallBy(named))];
    assert Run(s1, o, b, ops[1..]).next == s1.(queries := s1.queries + 1) by {
      assert ops[1..][1..] == [];
    }
  }

  /** The identifying getters neither depend on nor touch the cache: two
      objects in any two states answer them identically, and a sequence of
      such calls leaves the state as it was. */
  lemma {:induction false} IdentityIgnoresCache(s: State, t: State, o: Oracle, b: Backend, ops: seq<Op>)
    requires forall i :: 0 <= i < |ops| ==> ops[i].IdentityOp?
    ensures Run(s, o, b, ops).next == s
    ensures Run(s, o, b, ops).result == Run(t, o, b, ops).result
    ensures forall i :: 0 <= i < |ops| ==> Run(s, o, b, ops).result[i] == Thrown(AbstractMethod)
    decreases |ops|
  {
    if |ops| > 0 {
      IdentityIgnoresCache(s, t, o, b, ops[1..]);
    }
  }
}
