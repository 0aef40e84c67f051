/** Python's list comprehension `[y for x in xs for y in f(x)]`, of which
    `[g(x) for x in xs if p(x)]` is the case where `f(x)` holds at most one
    element. */
module ListComp {

  function FlatMap<T, U>(f: T -> seq<U>, xs: seq<T>): seq<U>
  {
    if xs == [] then [] else f(xs[0]) + FlatMap(f, xs[1..])
  }

  lemma AppendAssoc<T>(a: seq<T>, b: seq<T>, c: seq<T>)
    ensures a + (b + c) == (a + b) + c
  {
  }

  /** The comprehension over a concatenation is the concatenation of the
      comprehensions: the order of `xs` is kept. */
  lemma {:induction false} FlatMapAppend<T, U>(f: T -> seq<U>, a: seq<T>, b: seq<T>)
    ensures FlatMap(f, a + b) == FlatMap(f, a) + FlatMap(f, b)
  {
    if a == [] {
      assert a + b == b;
    } else {
      var ab := a + b;
      assert ab[0] == a[0] && ab[1..] == a[1..] + b;
      FlatMapAppend(f, a[1..], b);
      AppendAssoc(f(a[0]), FlatMap(f, a[1..]), FlatMap(f, b));
    }
  }

  /** With at most one element per input, there are at most as many outputs
      as inputs. */
  lemma {:induction false} FlatMapShort<T, U>(f: T -> seq<U>, xs: seq<T>)
    requires forall x :: |f(x)| <= 1
    ensures |FlatMap(f, xs)| <= |xs|
  {
    if xs != [] {
      FlatMapShort(f, xs[1..]);
    }
  }

  /** Every output comes from some input. */
  lemma {:induction false} FlatMapSource<T, U>(f: T -> seq<U>, xs: seq<T>, j: nat) returns (i: nat)
    requires j < |FlatMap(f, xs)|
    ensures i < |xs| && FlatMap(f, xs)[j] in f(xs[i])
  {
    var head, tail := f(xs[0]), FlatMap(f, xs[1..]);
    assert FlatMap(f, xs) == head + tail;
    if j < |head| {
      i := 0;
    } else {
      var k := FlatMapSource(f, xs[1..], j - |head|);
      i := k + 1;
      assert xs[1..][k] == xs[i];
    }
  }

  /** Every output of every input is an output. */
  lemma {:induction false} FlatMapKeep<T, U>(f: T -> seq<U>, xs: seq<T>, i: nat, y: U)
    requires i < |xs| && y in f(xs[i])
    ensures y in FlatMap(f, xs)
  {
    if i == 0 {
      assert FlatMap(f, xs) == f(xs[0]) + FlatMap(f, xs[1..]);
    } else {
      FlatMapKeep(f, xs[1..], i - 1, y);
      assert xs[1..][i - 1] == xs[i];
    }
  }
}
