/**
 * The column of work/v04/include/arraycolumn.h: every field handed to
 * `parse` is converted and appended to a DynamicArray.  The conversion
 * `convert<T>` comes from a conversion.h of that generation which is not
 * part of this model, so the converter is a parameter of the column: it
 * maps the field bytes to a value and the error flag.
 */
module V04ArrayColumn {
  import V04DynamicArray

  class ArrayColumn<T(0)> {
    /** `convert<T>(str, len, &err)`: the value and the error flag. */
    const convert: seq<char> -> (T, bool)
    const store: V04DynamicArray.DynamicArray<T>

    ghost predicate Valid()
      reads this, store, store.arr
    {
      store.Valid()
    }

    /** The values parsed so far, in order. */
    ghost function Values(): seq<T>
      reads this, store, store.arr
      requires Valid()
    {
      store.Contents()
    }

    /** An empty column whose array has capacity `initialSize` (1024 by
      * default). */
    constructor (initialSize: nat, convert: seq<char> -> (T, bool))
      ensures Valid() && fresh(store) && fresh(store.arr)
      ensures Values() == [] && store.len == initialSize && this.convert == convert
    {
      this.convert := convert;
      store := new V04DynamicArray.DynamicArray(initialSize);
    }

    /** start_reading does nothing. */
    method StartReading()
    {
    }

    /** parse: exactly one converted value is appended; the error flag is
      * dropped, so a failed conversion appends the converter's value all
      * the same. */
    method Parse(field: seq<char>)
      requires Valid() && store.len > 0
      modifies store, store.arr
      ensures Valid() && Values() == old(Values()) + [convert(field).0] && store.len >= old(store.len)
    {
      var conv := convert(field);
      store.PushBack(conv.0);
    }

    /** finished_reading: the storage shrinks to the values; they stay. */
    method FinishedReading()
      requires Valid()
      modifies store
      ensures Valid() && Values() == old(Values()) && store.len == |Values()|
    {
      store.Truncate();
    }

    method Size() returns (n: nat)
      requires Valid()
      ensures n == |Values()|
    {
      n := store.Size();
    }

    method Data() returns (d: array<T>)
      requires Valid()
      ensures d.Length >= |Values()| && d[..|Values()|] == Values()
    {
      d := store.Data();
    }
  }
}
