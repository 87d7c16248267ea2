/** Laws relating several stack operations, in the shapes the example program
    (main.cpp) uses them: n pushes undone by n pops, copy-initialisation, and
    `checkif` applied to `top()`. */
module StackLaws {
  import opened Stacks

  /** n pushes onto a stack with room for them, then n pops: the values come
      back in reverse order and the stack is as before. */
  method PushAllPopAll<T(0,==)>(s: Stack<T>, xs: seq<T>) returns (popped: seq<T>)
    requires s.Valid() && s.top + |xs| <= s.maxSize
    modifies s`top, s.stack
    ensures s.Valid() && s.Contents() == old(s.Contents())
    ensures popped == Reversed(xs)
  {
    ghost var base := s.Contents();
    for i := 0 to |xs|
      invariant s.Valid() && s.Contents() == base + xs[..i]
    {
      var r := s.Push(xs[i]);
      assert xs[..i + 1] == xs[..i] + [xs[i]];
    }
    popped := [];
    var k := |xs|;
    while k > 0
      invariant 0 <= k <= |xs|
      invariant s.Valid() && s.Contents() == base + xs[..k]
      invariant popped == Reversed(xs[k..])
    {
      ghost var before := s.Contents();
      var r := s.Pop();
      assert before == base + xs[..k - 1] + [xs[k - 1]] by {
        assert xs[..k] == xs[..k - 1] + [xs[k - 1]];
      }
      assert before == s.Contents() + [r.value];
      assert xs[k - 1..] == [xs[k - 1]] + xs[k..];
      ReversedPrepend(xs[k - 1], xs[k..]);
      popped := popped + [r.value];
      k := k - 1;
    }
    assert xs[..0] == [] && xs[0..] == xs;
  }

  /** `Stack<int> s9 = s2; assert(s9 == s2);`: a copy is `==` to its source
      and owns a buffer of its own. */
  method CopyInitialisation<T(0,==)>(a: Stack<T>) returns (b: Stack<T>, eq: bool)
    requires a.Valid()
    ensures b.Valid() && fresh(b) && fresh(b.stack)
    ensures eq
  {
    b := new Stack.Copy(a);
    eq := b.Equals(a);
  }

  /** After a copy, a push onto the source leaves the copy as it was; the two
      stay `==` exactly when the push failed. */
  method CopyIndependence<T(0,==)>(a: Stack<T>, x: T) returns (b: Stack<T>, pushed: Outcome, eq: bool)
    requires a.Valid()
    modifies a`top, a.stack
    ensures a.Valid() && b.Valid()
    ensures b.maxSize == a.maxSize && b.Contents() == old(a.Contents())
    ensures eq <==> pushed.Fail?
  {
    b := new Stack.Copy(a);
    pushed := a.Push(x);
    eq := a.Equals(b);
  }

  /** The assertions of the `checkif` test on the stack built from 1..8:
      its top is greater than 5, and after one pop its top is odd. */
  method CheckIfOnTop() returns (biggerThan5: bool, isOdd: bool)
    ensures biggerThan5 && isOdd
  {
    var s := new Stack.FromSequence([1, 2, 3, 4, 5, 6, 7, 8]);
    var top := s.Top();
    biggerThan5 := top.Success? && s.CheckIf(i => i > 5, top.value);
    var _ := s.Pop();
    top := s.Top();
    isOdd := top.Success? && s.CheckIf(i => i % 2 != 0, top.value);
  }
}
