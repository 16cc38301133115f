/** Counter: a signed 64-bit cell updated with atomic `fetch_add` /
    `fetch_sub`, which wrap in two's complement. */
module Counters {
  import opened Numeric

  class Counter {
    var value: i64

    /** `Counter::new`: starts at zero. */
    constructor ()
      ensures value == 0
    {
      value := 0;
    }

    /** `inc(n)`: adds `n`, wrapping modulo 2^64. */
    method Inc(n: i64)
      modifies this
      ensures value == WrappingAdd(old(value), n)
    {
      value := WrappingAdd(value, n);
    }

    /** `dec(n)`: subtracts `n`, wrapping modulo 2^64. */
    method Dec(n: i64)
      modifies this
      ensures value == WrappingSub(old(value), n)
    {
      value := WrappingSub(value, n);
    }

    /** `value()`: a plain load. */
    method Value() returns (v: i64)
      ensures v == value
    {
      v := value;
    }
  }

  /** One call on a counter, for reasoning about histories of calls. */
  datatype CounterOp = Inc(n: i64) | Dec(n: i64)

  /** The effect of one call. */
  function Step(v: i64, op: CounterOp): i64 {
    match op
    case Inc(n) => WrappingAdd(v, n)
    case Dec(n) => WrappingSub(v, n)
  }

  /** What one call adds, without wrapping. */
  function Delta(op: CounterOp): int {
    match op
    case Inc(n) => n as int
    case Dec(n) => -(n as int)
  }

  /** The state after a sequence of calls, applied left to right. */
  function Apply(v: i64, ops: seq<CounterOp>): i64
    decreases |ops|
  {
    if ops == [] then v
    else Apply(Step(v, ops[0]), ops[1..])
  }

  /** The exact (unbounded) sum of what the calls add. */
  function NetDelta(ops: seq<CounterOp>): int
    decreases |ops|
  {
    if ops == [] then 0
    else Delta(ops[0]) + NetDelta(ops[1..])
  }

  /** Whatever the calls, the counter holds the exact net sum reduced into i64. */
  lemma {:induction false} ApplyIsWrappedSum(v: i64, ops: seq<CounterOp>)
    ensures Apply(v, ops) == WrapI64(v + NetDelta(ops))
    decreases |ops|
  {
    if ops != [] {
      var d := Delta(ops[0]);
      var rest := NetDelta(ops[1..]);
      assert Step(v, ops[0]) == WrapI64(v + d);
      ApplyIsWrappedSum(Step(v, ops[0]), ops[1..]);
      WrapAbsorbs(v + d, rest);
      assert NetDelta(ops) == d + rest;
    }
  }

  lemma {:induction false} NetDeltaAppend(a: seq<CounterOp>, b: seq<CounterOp>)
    ensures NetDelta(a + b) == NetDelta(a) + NetDelta(b)
    decreases |a|
  {
    if a == [] {
      assert a + b == b;
    } else {
      assert (a + b)[1..] == a[1..] + b;
      NetDeltaAppend(a[1..], b);
    }
  }

  /** Appending one call to a history applies it to the history's result. */
  lemma ApplyStep(v: i64, ops: seq<CounterOp>, op: CounterOp)
    ensures Apply(v, ops + [op]) == Step(Apply(v, ops), op)
  {
    ApplyIsWrappedSum(v, ops + [op]);
    ApplyIsWrappedSum(v, ops);
    NetDeltaAppend(ops, [op]);
    var d := Delta(op);
    assert NetDelta([op]) == d;
    WrapAbsorbs(v + NetDelta(ops), d);
  }

  /** Updates commute: two batches of calls give the same value in either
      order, so the final value does not depend on how threads interleave. */
  lemma ApplyCommutes(v: i64, a: seq<CounterOp>, b: seq<CounterOp>)
    ensures Apply(v, a + b) == Apply(v, b + a)
  {
    ApplyIsWrappedSum(v, a + b);
    ApplyIsWrappedSum(v, b + a);
    NetDeltaAppend(a, b);
    NetDeltaAppend(b, a);
  }

  /** `inc` of the (wrapping) negation is `dec`, for every `n` including i64::MIN. */
  lemma IncNegIsDec(v: i64, n: i64)
    ensures WrappingAdd(v, WrapI64(-(n as int))) == WrappingSub(v, n)
  {
    WrapAbsorbs(-(n as int), v);
  }

  /** From zero, `inc(a); dec(b)` holds `a - b` (wrapped). */
  lemma IncThenDec(a: i64, b: i64)
    ensures WrappingSub(WrappingAdd(0, a), b) == WrapI64(a - b)
    ensures WrappingSub(WrappingAdd(0, 5), 2) == 3
  {
    WrapAbsorbs(a, -(b as int));
  }

  /** N increments by one from zero read N (below the i64 limit): no update is lost. */
  lemma {:induction false} OnesAddUp(ops: seq<CounterOp>)
    requires forall i :: 0 <= i < |ops| ==> ops[i] == Inc(1)
    requires |ops| <= I64_MAX
    ensures Apply(0, ops) == |ops|
  {
    ApplyIsWrappedSum(0, ops);
    CountOnes(ops);
  }

  lemma {:induction false} CountOnes(ops: seq<CounterOp>)
    requires forall i :: 0 <= i < |ops| ==> ops[i] == Inc(1)
    ensures NetDelta(ops) == |ops|
    decreases |ops|
  {
    if ops != [] {
      CountOnes(ops[1..]);
    }
  }
}
