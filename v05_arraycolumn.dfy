/**
 * The column of work/v05/laf2/src/arraycolumn.h: every field handed to
 * `parse` goes through `convert<T>` of V05Conversion and the value is
 * appended to a DynamicArray.  The dynamicarray.h of this generation is not
 * part of this model; the one of work/v04 is used.  The template argument
 * `T` is the column's `target`; values of either type are `Converted`.
 */
module V05ArrayColumn {
  import opened Text
  import V04DynamicArray
  import V05Conversion

  type Converted = V05Conversion.Converted

  /** The value `convert<T>(str, len, &err)` returns for the target, with
    * the default `na` of 0, or the exception it throws. */
  function ConvertedValue(target: V05Conversion.TargetType, field: seq<char>): (r: Result<Converted>)
    ensures r.Err? <==> target == V05Conversion.OtherTarget
  {
    match target
    case IntTarget => Ok(V05Conversion.IntValue(V05Conversion.AtoifOf(field, 0).value))
    case DoubleTarget => Ok(V05Conversion.DoubleValue(V05Conversion.FAtodOf(field).parts))
    case OtherTarget => Err("Conversion not implemented.")
  }

  class ArrayColumn {
    const target: V05Conversion.TargetType
    const store: V04DynamicArray.DynamicArray<Converted>

    ghost predicate Valid()
      reads this, store, store.arr
    {
      store.Valid()
    }

    /** The values parsed so far, in order. */
    ghost function Values(): seq<Converted>
      reads this, store, store.arr
      requires Valid()
    {
      store.Contents()
    }

    /** An empty column of capacity `initialSize` (1024 by default); size 0. */
    constructor (target: V05Conversion.TargetType, initialSize: nat)
      ensures Valid() && fresh(store) && fresh(store.arr)
      ensures Values() == [] && store.len == initialSize && this.target == target
    {
      this.target := target;
      store := new V04DynamicArray.DynamicArray(initialSize);
    }

    /** start_reading does nothing. */
    method StartReading()
    {
    }

    /** parse: one converted value per call, whatever the error flag says;
      * a target without a conversion throws and appends nothing. */
    method Parse(field: seq<char>) returns (r: Result<()>)
      requires Valid() && store.len > 0
      requires target == V05Conversion.DoubleTarget ==> V05Conversion.TableIndexInRange(field)
      modifies store, store.arr
      ensures Valid() && store.len >= old(store.len)
      ensures match ConvertedValue(target, field)
              case Err(m) => r == Err(m) && Values() == old(Values())
              case Ok(v) => r == Ok(()) && Values() == old(Values()) + [v]
    {
      var c := V05Conversion.Convert(target, field, 0, 0.0);
      match c {
        case Err(m) =>
          return Err(m);
        case Ok(conv) =>
          store.PushBack(conv.value);
          r := Ok(());
      }
    }

    /** finished_reading: the storage shrinks to the values; they stay. */
    method FinishedReading()
      requires Valid()
      modifies store
      ensures Valid() && Values() == old(Values()) && store.len == |Values()|
    {
      store.Truncate();
    }

    method Size() returns (n: nat)
      requires Valid()
      ensures n == |Values()|
    {
      n := store.Size();
    }

    method Data() returns (d: array<Converted>)
      requires Valid()
      ensures d.Length >= |Values()| && d[..|Values()|] == Values()
    {
      d := store.Data();
    }
  }
}
