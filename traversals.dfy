/** Traversals of a stack through its cursors: a loop from a begin cursor to
    an end cursor, reading each element. Each is proved to visit exactly the
    live elements of the stack, in the cursor's direction. */
module StackTraversals {
  import opened StackIterators
  import opened Stacks

  /** `for (it = s.begin(); it != s.end(); ++it)` with `iterator`: the live
      elements bottom to top. */
  method ForwardTraversal<T(0,==)>(s: Stack<T>) returns (visited: seq<T>)
    requires s.Valid()
    ensures visited == s.Contents()
  {
    var it := s.Begin();
    var last := s.End();
    visited := [];
    while !it.Equals(last)
      invariant it.data == s.stack && last.data == s.stack && last.pos == s.top
      invariant 0 <= it.pos <= s.top
      invariant visited == s.Contents()[..it.pos]
      decreases s.top - it.pos
    {
      assert s.Contents()[..it.pos + 1] == s.Contents()[..it.pos] + [it.Get()];
      visited := visited + [it.Get()];
      it.Next();
    }
  }

  /** The same loop with a `const_iterator`, compared against the mutable
      `end()` through the mixed `operator!=`. */
  method ConstTraversal<T(0,==)>(s: Stack<T>) returns (visited: seq<T>)
    requires s.Valid()
    ensures visited == s.Contents()
  {
    var it := s.ConstBegin();
    var last := s.End();
    visited := [];
    while !it.EqualsIterator(last)
      invariant it.data == s.stack && last.data == s.stack && last.pos == s.top
      invariant 0 <= it.pos <= s.top
      invariant visited == s.Contents()[..it.pos]
      decreases s.top - it.pos
    {
      assert s.Contents()[..it.pos + 1] == s.Contents()[..it.pos] + [it.Get()];
      visited := visited + [it.Get()];
      it.Next();
    }
  }

  /** The loop of main.cpp:223-231: two `const_iterator`s converted from the
      non-const `begin()` and `end()`, compared with `const_iterator`'s own
      `operator!=`. */
  method ConvertedConstTraversal<T(0,==)>(s: Stack<T>) returns (visited: seq<T>)
    requires s.Valid()
    ensures visited == s.Contents()
  {
    var first := s.Begin();
    var past := s.End();
    var start := new ConstIterator.FromIterator(first);
    var end := new ConstIterator.FromIterator(past);
    visited := [];
    while !start.Equals(end)
      invariant start.data == s.stack && end.data == s.stack && end.pos == s.top
      invariant 0 <= start.pos <= s.top
      invariant visited == s.Contents()[..start.pos]
      decreases s.top - start.pos
    {
      assert s.Contents()[..start.pos + 1] == s.Contents()[..start.pos] + [start.Get()];
      visited := visited + [start.Get()];
      start.Next();
    }
  }

  /** `while (it != s.readOnlyEnd()) { *it; it++; }`: the live elements top to
      bottom; on an empty stack `readOnlyBegin()` already equals
      `readOnlyEnd()`. */
  method ReverseTraversal<T(0,==)>(s: Stack<T>) returns (visited: seq<T>)
    requires s.Valid()
    ensures visited == Reversed(s.Contents())
    ensures s.Contents() == [] ==> visited == []
  {
    var it := s.ReadOnlyBegin();
    var last := s.ReadOnlyEnd();
    visited := [];
    while !it.Equals(last)
      invariant it.data == s.stack && last.data == s.stack && last.pos == -1
      invariant -1 <= it.pos < s.top
      invariant visited == Reversed(s.Contents()[it.pos + 1..])
      decreases it.pos + 1
    {
      var rest := s.Contents()[it.pos + 1..];
      assert s.Contents()[it.pos..] == [it.Get()] + rest;
      ReversedPrepend(it.Get(), rest);
      visited := visited + [it.Get()];
      var _ := it.PostNext();
    }
  }

  /** Both traversals see the same elements: the top-to-bottom one is the
      bottom-to-top one read backwards. */
  method BothTraversals<T(0,==)>(s: Stack<T>) returns (forward: seq<T>, backward: seq<T>)
    requires s.Valid()
    ensures backward == Reversed(forward) && forward == Reversed(backward)
  {
    forward := ForwardTraversal(s);
    backward := ReverseTraversal(s);
    ReversedReversed(forward);
  }
}
