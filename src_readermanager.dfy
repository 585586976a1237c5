/**
 * The handle table of src/readermanager.cpp: readers are registered under
 * handles 0, 1, 2... that are never reused; closing a handle deletes its
 * reader and leaves a null entry in its place.  The single manager is
 * created on first use.  Deleting a reader frees its memory, which this
 * model does not track: a closed entry is simply null.
 */
module SrcReaderManager {
  import SrcReader

  /** Reference: get_reader on the table `readers`. */
  function Lookup(readers: seq<SrcReader.Reader?>, h: int): SrcReader.Reader? {
    if h < 0 || h >= |readers| then null else readers[h]
  }

  /** Reference: what close_reader leaves of the table. */
  function Close(readers: seq<SrcReader.Reader?>, h: int): seq<SrcReader.Reader?> {
    if Lookup(readers, h) != null then readers[h := null] else readers
  }

  /** A new handle reaches the new reader and leaves the others as they
    * were. */
  lemma LookupAfterNew(readers: seq<SrcReader.Reader?>, r: SrcReader.Reader?, h: int)
    ensures Lookup(readers + [r], |readers|) == r
    ensures h != |readers| ==> Lookup(readers + [r], h) == Lookup(readers, h)
  {
  }

  /** A closed handle is null; every other handle and the size stay. */
  lemma LookupAfterClose(readers: seq<SrcReader.Reader?>, h: int, k: int)
    ensures |Close(readers, h)| == |readers|
    ensures Lookup(Close(readers, h), h) == null
    ensures k != h ==> Lookup(Close(readers, h), k) == Lookup(readers, k)
  {
  }

  class ReaderManager {
    var readers: seq<SrcReader.Reader?>

    constructor ()
      ensures readers == []
    {
      readers := [];
    }

    /** new_reader(reader): the handle is the number of entries before. */
    method NewReader(reader: SrcReader.Reader?) returns (h: int)
      modifies this
      ensures readers == old(readers) + [reader] && h == |old(readers)|
      ensures Lookup(readers, h) == reader
    {
      readers := readers + [reader];
      h := |readers| - 1;
    }

    /** get_reader(h): null for a negative handle or one past the table. */
    method GetReader(h: int) returns (r: SrcReader.Reader?)
      ensures r == Lookup(readers, h)
      ensures h < 0 || h >= |readers| ==> r == null
      ensures 0 <= h < |readers| ==> r == readers[h]
    {
      if h < 0 {
        return null;
      }
      if h >= |readers| {
        return null;
      }
      r := readers[h];
    }

    /** close_reader(h): the entry of an open handle becomes null; any
      * other handle is left alone. */
    method CloseReader(h: int)
      modifies this
      ensures readers == Close(old(readers), h)
      ensures |readers| == |old(readers)| && Lookup(readers, h) == null
      ensures forall k :: 0 <= k < |readers| && k != h ==> readers[k] == old(readers)[k]
    {
      if h >= 0 {
        var reader := GetReader(h);
        if reader != null {
          readers := readers[h := null];
        }
      }
    }
  }

  /** The static `instance_` of ReaderManager. */
  class Registry {
    var instance: ReaderManager?

    constructor ()
      ensures instance == null
    {
      instance := null;
    }

    /** instance(): the manager, created on the first call only. */
    method Instance() returns (m: ReaderManager)
      modifies this
      ensures instance == m
      ensures old(instance) != null ==> m == old(instance)
      ensures old(instance) == null ==> fresh(m) && m.readers == []
    {
      if instance == null {
        instance := new ReaderManager();
      }
      m := instance;
    }
  }
}
