/** The three cursor classes nested in Stack<T> (stack.h): `iterator`,
    `const_iterator` and the custom `readOnlyIterator`.

    A C++ cursor holds a raw pointer `stack_` into the stack's buffer. Here
    that pointer is the pair (`data`, `pos`): the buffer it points into and its
    offset from the buffer's first slot. Offsets may leave the buffer (one past
    the last live element for `end()`, -1 for `readOnlyEnd()`), as the pointer
    does; only dereferencing requires an offset inside the buffer. Two cursors
    are equal exactly when their pointers are, that is when they address the
    same slot of the same buffer; `operator!=` is the negation of `Equals`. */
module StackIterators {

  /** `Stack<T>::iterator`: forward, bottom to top, with write access. */
  class Iterator<T> {
    var data: array<T>
    var pos: int

    /** The private `iterator(T *s, unsigned int t)` used by `begin`/`end`. */
    constructor At(data: array<T>, pos: int)
      ensures this.data == data && this.pos == pos
    {
      this.data := data;
      this.pos := pos;
    }

    /** Copy constructor. */
    constructor Copy(other: Iterator<T>)
      ensures data == other.data && pos == other.pos
      ensures Equals(other)
    {
      data := other.data;
      pos := other.pos;
    }

    /** `operator=`, with its self-assignment check. */
    method Assign(other: Iterator<T>)
      modifies this
      ensures data == old(other.data) && pos == old(other.pos)
      ensures Equals(other)
    {
      if this != other {
        data := other.data;
        pos := other.pos;
      }
    }

    /** `operator*`: the addressed element; never applied at `end()`. */
    function Get(): T
      requires 0 <= pos < data.Length
      reads this, data
    {
      data[pos]
    }

    /** Assignment through the reference `operator*` returns. */
    method Set(value: T)
      requires 0 <= pos < data.Length
      modifies data
      ensures data[pos] == value && Get() == value
      ensures forall i :: 0 <= i < data.Length && i != pos ==> data[i] == old(data[i])
    {
      data[pos] := value;
    }

    /** Pre-increment `++it`: one slot towards the top. */
    method Next()
      modifies this`pos
      ensures pos == old(pos) + 1
    {
      pos := pos + 1;
    }

    /** Post-increment `it++`: advances and returns a cursor at the old slot. */
    method PostNext() returns (previous: Iterator<T>)
      modifies this`pos
      ensures fresh(previous) && previous.data == data && previous.pos == old(pos)
      ensures pos == old(pos) + 1
    {
      previous := new Iterator.At(data, pos);
      pos := pos + 1;
    }

    predicate Equals(other: Iterator<T>)
      reads this, other
    {
      data == other.data && pos == other.pos
    }

    /** `operator==(const const_iterator&)`. */
    predicate EqualsConst(other: ConstIterator<T>)
      reads this, other
    {
      data == other.data && pos == other.pos
    }
  }

  /** `Stack<T>::const_iterator`: forward, bottom to top, read only. */
  class ConstIterator<T> {
    var data: array<T>
    var pos: int

    /** The private `const_iterator(const T *s, unsigned int t)`. */
    constructor At(data: array<T>, pos: int)
      ensures this.data == data && this.pos == pos
    {
      this.data := data;
      this.pos := pos;
    }

    /** Copy constructor. */
    constructor Copy(other: ConstIterator<T>)
      ensures data == other.data && pos == other.pos
      ensures Equals(other)
    {
      data := other.data;
      pos := other.pos;
    }

    /** Conversion `iterator -> const_iterator` (never the other way). */
    constructor FromIterator(other: Iterator<T>)
      ensures data == other.data && pos == other.pos
      ensures EqualsIterator(other) && other.EqualsConst(this)
      ensures 0 <= pos < data.Length ==> Get() == other.Get()
    {
      data := other.data;
      pos := other.pos;
    }

    /** `operator=(const const_iterator&)`. */
    method Assign(other: ConstIterator<T>)
      modifies this
      ensures data == old(other.data) && pos == old(other.pos)
      ensures Equals(other)
    {
      if this != other {
        data := other.data;
        pos := other.pos;
      }
    }

    /** `operator=(const iterator&)`. */
    method AssignIterator(other: Iterator<T>)
      modifies this
      ensures data == other.data && pos == other.pos
      ensures EqualsIterator(other)
    {
      data := other.data;
      pos := other.pos;
    }

    /** `operator*`: the addressed element, by const reference. */
    function Get(): T
      requires 0 <= pos < data.Length
      reads this, data
    {
      data[pos]
    }

    /** Pre-increment `++it`. */
    method Next()
      modifies this`pos
      ensures pos == old(pos) + 1
    {
      pos := pos + 1;
    }

    /** Post-increment `it++`, by its evident intent (a copy at the old slot). */
    method PostNext() returns (previous: ConstIterator<T>)
      modifies this`pos
      ensures fresh(previous) && previous.data == data && previous.pos == old(pos)
      ensures pos == old(pos) + 1
    {
      previous := new ConstIterator.At(data, pos);
      pos := pos + 1;
    }

    predicate Equals(other: ConstIterator<T>)
      reads this, other
    {
      data == other.data && pos == other.pos
    }

    /** `operator==(const iterator&)`. */
    predicate EqualsIterator(other: Iterator<T>)
      reads this, other
    {
      data == other.data && pos == other.pos
    }
  }

  /** `Stack<T>::readOnlyIterator`: top to bottom, ending at the sentinel
      offset -1, one slot before the bottom. */
  class ReadOnlyIterator<T> {
    var data: array<T>
    var pos: int

    /** The private `readOnlyIterator(T *s, unsigned int t)`. */
    constructor At(data: array<T>, pos: int)
      ensures this.data == data && this.pos == pos
    {
      this.data := data;
      this.pos := pos;
    }

    /** Copy constructor. */
    constructor Copy(other: ReadOnlyIterator<T>)
      ensures data == other.data && pos == other.pos
      ensures Equals(other)
    {
      data := other.data;
      pos := other.pos;
    }

    /** `operator*`: the addressed element; never applied at the sentinel. */
    function Get(): T
      requires 0 <= pos < data.Length
      reads this, data
    {
      data[pos]
    }

    /** Assignment through the `T&` that `operator*` returns: the cursor is
        read-only in name only. */
    method Set(value: T)
      requires 0 <= pos < data.Length
      modifies data
      ensures data[pos] == value && Get() == value
      ensures forall i :: 0 <= i < data.Length && i != pos ==> data[i] == old(data[i])
    {
      data[pos] := value;
    }

    /** Pre-increment `++it`: one slot towards the bottom. */
    method Next()
      modifies this`pos
      ensures pos == old(pos) - 1
    {
      pos := pos - 1;
    }

    /** Post-increment `it++`: a copy at the old slot, then `++`. */
    method PostNext() returns (previous: ReadOnlyIterator<T>)
      modifies this`pos
      ensures fresh(previous) && previous.data == data && previous.pos == old(pos)
      ensures pos == old(pos) - 1
    {
      previous := new ReadOnlyIterator.At(data, pos);
      Next();
    }

    predicate Equals(other: ReadOnlyIterator<T>)
      reads this, other
    {
      data == other.data && pos == other.pos
    }
  }

  /** The two mixed comparisons, `iterator == const_iterator` and
      `const_iterator == iterator`, always agree, and so do their `!=`. */
  lemma MixedEqualsAgree<T>(it: Iterator<T>, c: ConstIterator<T>)
    ensures it.EqualsConst(c) <==> c.EqualsIterator(it)
  {
  }
}
