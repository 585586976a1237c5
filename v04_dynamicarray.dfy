/**
 * The growable array of work/v04/include/dynamicarray.h: a heap block of
 * capacity `len` of which the first `pos` elements are used.  `realloc`
 * becomes a fresh array into which the elements the old block and the new
 * capacity have in common are copied; the null block of capacity 0 is an
 * array of length 0.
 */
module V04DynamicArray {

  /** The constructor's default capacity. */
  const DefaultSize: nat := 1024

  /** The capacity `push_back` leaves: doubled when the block was full. */
  function GrownCapacity(len: nat, pos: nat): (c: nat)
    ensures pos < len ==> c == len
    ensures pos >= len ==> c == 2 * len
    ensures 0 < len && pos <= len ==> pos < c
  {
    if pos >= len then 2 * len else len
  }

  class DynamicArray<T(0)> {
    var arr: array<T>
    /** The capacity. */
    var len: nat
    /** The number of elements in use. */
    var pos: nat

    ghost predicate Valid()
      reads this, arr
    {
      arr.Length == len && pos <= len
    }

    /** The elements pushed so far. */
    ghost function Contents(): seq<T>
      reads this, arr
      requires Valid()
    {
      arr[..pos]
    }

    /** An empty array of capacity `size` (1024 by default). */
    constructor (size: nat)
      ensures Valid() && fresh(arr) && Contents() == [] && len == size
    {
      arr := new T[size];
      len := size;
      pos := 0;
    }

    method Size() returns (n: nat)
      requires Valid()
      ensures n == |Contents()|
    {
      n := pos;
    }

    /** The block; its first `size()` elements are the contents. */
    method Data() returns (d: array<T>)
      requires Valid()
      ensures d == arr && d.Length == len && d[..|Contents()|] == Contents()
    {
      d := arr;
    }

    /** The private `resize(new_size)`: the block gets capacity `newSize`
      * and keeps the elements both capacities hold; 0 frees it. */
    method Resize(newSize: nat)
      requires Valid() && pos <= newSize
      modifies this
      ensures Valid() && fresh(arr) && len == newSize && pos == old(pos)
      ensures var m := if old(len) < newSize then old(len) else newSize;
              arr[..m] == old(arr[..m])
    {
      var m := if len < newSize then len else newSize;
      var a := new T[newSize];
      var k := 0;
      while k < m
        invariant k <= m && a[..k] == arr[..k]
        modifies a
      {
        a[k] := arr[k];
        k := k + 1;
      }
      arr := a;
      len := newSize;
    }

    /** push_back: `val` becomes the last element and nothing before it
      * changes; a full block doubles first.  Doubling capacity 0 stays 0,
      * so the source writes past the block then: the capacity must be
      * positive. */
    method PushBack(val: T)
      requires Valid() && len > 0
      modifies this, arr
      ensures Valid() && Contents() == old(Contents()) + [val]
      ensures len == GrownCapacity(old(len), old(pos))
    {
      if pos >= len {
        Resize(2 * len);
      }
      arr[pos] := val;
      pos := pos + 1;
    }

    /** truncate: the capacity becomes exactly the size; the contents stay. */
    method Truncate()
      requires Valid()
      modifies this
      ensures Valid() && Contents() == old(Contents()) && len == |Contents()|
    {
      Resize(pos);
    }
  }
}
