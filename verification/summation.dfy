/** `sum(...args)`: `args.reduce((acc, val) => acc + (val || 0), 0)` on
    integer arguments, any of which may be null or undefined. */
module Summation {

  /** One argument of `sum`. */
  datatype Arg = Undefined | Null | Num(value: int)

  /** JavaScript truthiness: null, undefined and 0 are falsy. */
  predicate Truthy(a: Arg) {
    a.Num? && a.value != 0
  }

  /** `val || 0`. */
  function OrZero(a: Arg): int {
    if Truthy(a) then a.value else 0
  }

  /** The left fold of `reduce`, starting from 0. */
  function Sum(args: seq<Arg>): int
    decreases |args|
  {
    if |args| == 0 then 0 else Sum(args[..|args| - 1]) + OrZero(args[|args| - 1])
  }

  /** The values of the truthy arguments, in order. */
  function TruthyValues(args: seq<Arg>): (vs: seq<int>)
    ensures |vs| <= |args|
    ensures forall k :: 0 <= k < |vs| ==> vs[k] != 0
    decreases |args|
  {
    if |args| == 0 then []
    else (if Truthy(args[0]) then [args[0].value] else []) + TruthyValues(args[1..])
  }

  /** Plain sum of integers. */
  function Total(xs: seq<int>): int
    decreases |xs|
  {
    if |xs| == 0 then 0 else xs[0] + Total(xs[1..])
  }

  /** Summing two runs of arguments one after the other adds up. */
  lemma {:induction false} SumAppend(a: seq<Arg>, b: seq<Arg>)
    ensures Sum(a + b) == Sum(a) + Sum(b)
    decreases |b|
  {
    if |b| == 0 {
      assert a + b == a;
    } else {
      var c := a + b;
      assert c[..|c| - 1] == a + b[..|b| - 1];
      assert c[|c| - 1] == b[|b| - 1];
      SumAppend(a, b[..|b| - 1]);
    }
  }

  /** `sum` is the plain sum of its truthy arguments: falsy arguments
      contribute nothing. */
  lemma {:induction false} SumOfTruthy(args: seq<Arg>)
    ensures Sum(args) == Total(TruthyValues(args))
    decreases |args|
  {
    if |args| > 0 {
      assert args == [args[0]] + args[1..];
      SumAppend([args[0]], args[1..]);
      assert [args[0]][..0] == [];
      assert Sum([args[0]]) == OrZero(args[0]);
      SumOfTruthy(args[1..]);
      var rest := TruthyValues(args[1..]);
      if Truthy(args[0]) {
        assert ([args[0].value] + rest)[1..] == rest;
      } else {
        assert [] + rest == rest;
      }
    }
  }

  /** Removing a falsy argument anywhere leaves the sum unchanged. */
  lemma SumDropsFalsy(a: seq<Arg>, f: Arg, b: seq<Arg>)
    requires !Truthy(f)
    ensures Sum(a + [f] + b) == Sum(a + b)
  {
    SumAppend(a + [f], b);
    SumAppend(a, [f]);
    assert [f][..0] == [];
    SumAppend(a, b);
  }

  /** `sum()` is 0 and `sum(1, 0, null, 3)` is 4. */
  lemma SumExamples()
    ensures Sum([]) == 0
    ensures Sum([Num(1), Num(0), Null, Num(3)]) == 4
  {
    var args := [Num(1), Num(0), Null, Num(3)];
    assert args[..3] == [Num(1), Num(0), Null];
    assert args[..3][..2] == [Num(1), Num(0)];
    assert args[..3][..2][..1] == [Num(1)];
    assert args[..3][..2][..1][..0] == [];
    assert Sum([Num(1)]) == 1;
    assert Sum([Num(1), Num(0)]) == 1;
    assert Sum([Num(1), Num(0), Null]) == 1;
  }
}
