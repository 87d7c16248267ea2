/** The bounded generic stack `Stack<T>` of stack.h: an owned buffer of fixed
    length `maxSize` whose first `top` slots are the live elements, bottom
    first. The checks that throw `std::length_error` in C++ return a `Fail` /
    `Failure` value here and leave the state as it was. */
module Stacks {
  import opened StackIterators

  /** One past the largest `unsigned int`. */
  const UINT32_LIMIT: nat := 0x1_0000_0000

  /** The source's `unsigned int`. */
  newtype uint32 = x: int | 0 <= x < 0x1_0000_0000

  /** The `std::length_error` thrown at each check, by its message. */
  datatype LengthError =
    | PushOverflow    // "Stack overflow in push"
    | PopUnderflow    // "Stack underflow in pop"
    | TopUnderflow    // "Stack underflow in top"
    | FillTooLong     // "Errore fill(): la sequenza ... è più lunga ..."

  /** Outcome of an operation returning `void`. */
  datatype Outcome = Ok | Fail(error: LengthError)

  /** Outcome of an operation returning a `T`. */
  datatype Result<T> = Success(value: T) | Failure(error: LengthError)

  /** The sequence read from its last element to its first. */
  function Reversed<T>(s: seq<T>): (r: seq<T>)
    ensures |r| == |s|
  {
    if s == [] then [] else [s[|s| - 1]] + Reversed(s[..|s| - 1])
  }

  /** Putting an element below a sequence puts it last in the reversal. */
  lemma {:induction false} ReversedPrepend<T>(x: T, s: seq<T>)
    ensures Reversed([x] + s) == Reversed(s) + [x]
  {
    if s != [] {
      assert ([x] + s)[..|s|] == [x] + s[..|s| - 1];
      ReversedPrepend(x, s[..|s| - 1]);
    }
  }

  lemma {:induction false} ReversedReversed<T>(s: seq<T>)
    ensures Reversed(Reversed(s)) == s
  {
    if s != [] {
      var last, rest := s[|s| - 1], s[..|s| - 1];
      ReversedPrepend(last, Reversed(rest));
      ReversedReversed(rest);
      assert s == rest + [last];
    }
  }

  /** What `operator<<` writes for each live element, bottom first. */
  function Items<T>(s: seq<T>, show: T -> string): string
  {
    if s == [] then "" else Items(s[..|s| - 1], show) + show(s[|s| - 1]) + " "
  }

  /** The text `operator<<` writes for a stack with live elements `s`. */
  function Rendered<T>(s: seq<T>, show: T -> string): string
  {
    "[ " + (if s == [] then "stack empty " else Items(s, show)) + "]\n"
  }

  /** The rendering of the elements is the rendering of any split of them,
      placed side by side: every element appears once, in stack order. */
  lemma {:induction false} ItemsAppend<T>(a: seq<T>, b: seq<T>, show: T -> string)
    ensures Items(a + b, show) == Items(a, show) + Items(b, show)
  {
    if b == [] {
      assert a + b == a;
    } else {
      assert (a + b)[..|a + b| - 1] == a + b[..|b| - 1];
      ItemsAppend(a, b[..|b| - 1], show);
    }
  }

  class Stack<T(0,==)> {
    var stack: array<T>
    var maxSize: nat
    var top: nat

    ghost predicate Valid()
      reads this
    {
      stack.Length == maxSize && top <= maxSize && maxSize < UINT32_LIMIT
    }

    /** The live prefix, bottom first. */
    ghost function Contents(): (s: seq<T>)
      requires Valid()
      reads this, stack
      ensures |s| == top
    {
      stack[..top]
    }

    /** `Stack()`: capacity 0 (the source's null buffer is an empty array). */
    constructor ()
      ensures Valid() && fresh(stack)
      ensures maxSize == 0 && Contents() == []
      ensures Empty() && Full()
    {
      stack := new T[0];
      maxSize, top := 0, 0;
    }

    /** `Stack(unsigned int max_size)`. */
    constructor WithCapacity(n: uint32)
      ensures Valid() && fresh(stack)
      ensures maxSize == n as nat && Contents() == []
      ensures Empty() && (Full() <==> n == 0)
    {
      stack := new T[n];
      maxSize, top := n as nat, 0;
    }

    /** `Stack(Iter first, Iter last)`: the capacity is `last - first`
        converted to `unsigned int`, and the copy stops at that capacity. */
    constructor FromSequence(s: seq<T>)
      ensures Valid() && fresh(stack)
      ensures maxSize == |s| % UINT32_LIMIT && Contents() == s[..maxSize]
      ensures |s| < UINT32_LIMIT ==> maxSize == |s| && Contents() == s && Full()
    {
      var n := |s| % UINT32_LIMIT;
      var a := new T[n];
      var t := 0;
      var i := 0;
      while i < |s| && t < n
        invariant i == t <= n
        invariant a[..t] == s[..i]
      {
        a[t] := s[i];
        t := t + 1;
        i := i + 1;
      }
      stack, maxSize, top := a, n, t;
    }

    /** Copy constructor: a fresh buffer of the same capacity holding a copy
        of the live elements. */
    constructor Copy(other: Stack<T>)
      requires other.Valid()
      ensures Valid() && fresh(stack) && stack != other.stack
      ensures maxSize == other.maxSize && Contents() == other.Contents()
    {
      var a := new T[other.maxSize];
      for i := 0 to other.top
        invariant a[..i] == other.stack[..i]
      {
        a[i] := other.stack[i];
      }
      stack, maxSize, top := a, other.maxSize, other.top;
    }

    /** `operator=`, by its evident copy-then-swap intent: a temporary copy of
        `other` trades state with this stack, which then owns a fresh buffer;
        self-assignment changes nothing. */
    method Assign(other: Stack<T>)
      requires Valid() && other.Valid()
      modifies this
      ensures Valid()
      ensures maxSize == old(other.maxSize) && Contents() == old(other.Contents())
      ensures this != other ==> fresh(stack)
    {
      if this != other {
        var tmp := new Stack.Copy(other);
        stack, tmp.stack := tmp.stack, stack;
        maxSize, tmp.maxSize := tmp.maxSize, maxSize;
        top, tmp.top := tmp.top, top;
      }
    }

    /** `operator==`: same capacity, same size, equal live elements. */
    method Equals(other: Stack<T>) returns (eq: bool)
      requires Valid() && other.Valid()
      ensures eq <==> maxSize == other.maxSize && Contents() == other.Contents()
    {
      if maxSize != other.maxSize || top != other.top {
        return false;
      }
      var i := 0;
      while i < top
        invariant i <= top
        invariant stack[..i] == other.stack[..i]
      {
        if stack[i] != other.stack[i] {
          assert Contents()[i] != other.Contents()[i];
          return false;
        }
        i := i + 1;
      }
      return true;
    }

    /** `push`: on a stack with room the value goes into slot `top`. */
    method Push(value: T) returns (r: Outcome)
      requires Valid()
      modifies this`top, stack
      ensures Valid()
      ensures r == if old(top) < maxSize then Ok else Fail(PushOverflow)
      ensures r.Ok? ==> top == old(top) + 1 && Contents() == old(Contents()) + [value]
      ensures r.Ok? ==> stack[old(top)] == value
      ensures r.Ok? ==> forall i :: 0 <= i < stack.Length && i != old(top) ==> stack[i] == old(stack[i])
      ensures r.Fail? ==> top == old(top) && stack[..] == old(stack[..])
    {
      if top < maxSize {
        stack[top] := value;
        top := top + 1;
        return Ok;
      } else {
        return Fail(PushOverflow);
      }
    }

    /** `pop`: the top element comes off and is returned. */
    method Pop() returns (r: Result<T>)
      requires Valid()
      modifies this`top
      ensures Valid()
      ensures r.Success? <==> old(top) > 0
      ensures r.Success? ==> top == old(top) - 1 && old(Contents()) == Contents() + [r.value]
      ensures r.Failure? ==> r.error == PopUnderflow && top == old(top)
    {
      if top > 0 {
        top := top - 1;
        return Success(stack[top]);
      } else {
        return Failure(PopUnderflow);
      }
    }

    /** `top`: the top element, read only. */
    function Top(): (r: Result<T>)
      requires Valid()
      reads this, stack
      ensures r.Success? <==> Contents() != []
      ensures r.Success? ==> r.value == Contents()[|Contents()| - 1]
      ensures r.Failure? ==> r.error == TopUnderflow
    {
      if top > 0 then Success(stack[top - 1]) else Failure(TopUnderflow)
    }

    /** `clear`: logical only; the buffer and its capacity stay. */
    method Clear()
      requires Valid()
      modifies this`top
      ensures Valid() && Contents() == [] && Empty()
    {
      top := 0;
    }

    function Empty(): (b: bool)
      requires Valid()
      reads this, stack
      ensures b <==> Contents() == []
    {
      top == 0
    }

    function Full(): (b: bool)
      requires Valid()
      reads this, stack
      ensures b <==> |Contents()| == stack.Length
    {
      top == maxSize
    }

    function Size(): (n: nat)
      requires Valid()
      reads this, stack
      ensures n == |Contents()| && n <= stack.Length
    {
      top
    }

    function MaxSize(): (n: nat)
      requires Valid()
      reads this
      ensures n == stack.Length && n < UINT32_LIMIT
    {
      maxSize
    }

    /** `fill`: the length is checked before anything is cleared; the copy
        reuses the existing buffer. */
    method Fill(s: seq<T>) returns (r: Outcome)
      requires Valid()
      modifies this`top, stack
      ensures Valid()
      ensures r == if |s| > maxSize then Fail(FillTooLong) else Ok
      ensures r.Fail? ==> top == old(top) && stack[..] == old(stack[..])
      ensures r.Ok? ==> Contents() == s && stack[|s|..] == old(stack[|s|..])
    {
      if |s| > maxSize {
        return Fail(FillTooLong);
      }
      Clear();
      var i := 0;
      while i < |s| && top < maxSize
        invariant i == top <= |s|
        invariant stack[..i] == s[..i]
        invariant stack[|s|..] == old(stack[|s|..])
      {
        stack[top] := s[i];
        top := top + 1;
        i := i + 1;
      }
      return Ok;
    }

    /** `checkif`: the predicate's verdict on the element, passed through. */
    function CheckIf(p: T -> bool, element: T): (b: bool)
      ensures b <==> p(element)
    {
      if p(element) then true else false
    }

    /** `operator<<`, with `show` standing for `os << element`. */
    method Print(show: T -> string) returns (text: string)
      requires Valid()
      ensures text == Rendered(Contents(), show)
    {
      text := "[ ";
      if top == 0 {
        text := text + "stack empty ";
      } else {
        for i := 0 to top
          invariant text == "[ " + Items(stack[..i], show)
        {
          assert stack[..i + 1][..i] == stack[..i];
          text := text + show(stack[i]) + " ";
        }
      }
      text := text + "]\n";
    }

    method Begin() returns (it: Iterator<T>)
      requires Valid()
      ensures fresh(it) && it.data == stack && it.pos == 0
    {
      it := new Iterator.At(stack, 0);
    }

    method End() returns (it: Iterator<T>)
      requires Valid()
      ensures fresh(it) && it.data == stack && it.pos == top
    {
      it := new Iterator.At(stack, top);
    }

    /** `begin() const`. */
    method ConstBegin() returns (it: ConstIterator<T>)
      requires Valid()
      ensures fresh(it) && it.data == stack && it.pos == 0
    {
      it := new ConstIterator.At(stack, 0);
    }

    /** `end() const`. */
    method ConstEnd() returns (it: ConstIterator<T>)
      requires Valid()
      ensures fresh(it) && it.data == stack && it.pos == top
    {
      it := new ConstIterator.At(stack, top);
    }

    /** `readOnlyBegin`: at the top element, or at the sentinel when empty. */
    method ReadOnlyBegin() returns (it: ReadOnlyIterator<T>)
      requires Valid()
      ensures fresh(it) && it.data == stack && it.pos == top - 1
    {
      it := new ReadOnlyIterator.At(stack, top - 1);
    }

    /** `readOnlyEnd`: the sentinel one slot below the bottom. */
    method ReadOnlyEnd() returns (it: ReadOnlyIterator<T>)
      requires Valid()
      ensures fresh(it) && it.data == stack && it.pos == -1
    {
      it := new ReadOnlyIterator.At(stack, -1);
    }
  }
}
