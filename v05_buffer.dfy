/**
 * The block-reading byte source of work/v05/laf2/src/buffer.h.  The constructor
 * can skip a number of leading bytes with `seekg`; a seek past the end of
 * the file leaves nothing to read, which the model states by clamping the
 * stream position to the file length.  The file is
 * its byte content `content`; `file_.read(buffer_, max_buffer_size)`
 * followed by `gcount()` copies the next min(max_buffer_size, remaining)
 * bytes into the fixed-size array and leaves the stream that much further
 * on.  `next` and `peek` return 0 at the end of the file.
 */
module V05Buffer {
  import Text

  const MaxBufferSize: nat := 1000000

  class Buffer {
    /** The bytes of the file. */
    const content: seq<char>
    /** Stream position: the bytes read into blocks so far. */
    var filePos: nat
    const buffer: array<char>
    var bufferSize: nat
    var pos: nat

    /** The block in `buffer[..bufferSize]` is the last one read, and the
      * cursor lies inside it. */
    ghost predicate Valid()
      reads this, buffer
    {
      && buffer.Length == MaxBufferSize
      && bufferSize <= MaxBufferSize && pos <= bufferSize
      && bufferSize <= filePos <= |content|
      && buffer[..bufferSize] == content[filePos - bufferSize..filePos]
    }

    /** The number of file bytes handed out (or passed) by `next`. */
    ghost function Consumed(): nat
      reads this
      requires bufferSize <= filePos
    {
      filePos - bufferSize + pos
    }

    /** The byte `next` returns when `k` bytes have been consumed: the file
      * byte, or 0 at the end of the file. */
    ghost function ByteAt(k: nat): char {
      if k < |content| then content[k] else 0 as char
    }

    /** With `skip` > 0 the first `next` returns file byte `skip`; with 0 no
      * seek happens. */
    constructor (content: seq<char>, skip: nat)
      ensures Valid() && fresh(buffer)
      ensures this.content == content
      ensures Consumed() == if skip <= |content| then skip else |content|
    {
      this.content := content;
      buffer := new char[MaxBufferSize];
      filePos := 0;
      bufferSize := 0;
      pos := 0;
      if skip > 0 {
        filePos := if skip <= |content| then skip else |content|;
      }
    }

    /** `file_.read` into the block and `gcount()`: the next
      * min(max_buffer_size, remaining) bytes, with the cursor at 0. */
    method Refill()
      requires Valid() && pos == bufferSize
      modifies this, buffer
      ensures Valid() && pos == 0 && Consumed() == old(Consumed())
      ensures bufferSize == if |content| - old(filePos) < MaxBufferSize then |content| - old(filePos) else MaxBufferSize
    {
      var n := if |content| - filePos < MaxBufferSize then |content| - filePos else MaxBufferSize;
      Text.FileRead(buffer, content, filePos, n);
      filePos := filePos + n;
      bufferSize := n;
      pos := 0;
    }

    /** The next file byte, or 0 at the end of the file. */
    method Next() returns (c: char)
      requires Valid()
      modifies this, buffer
      ensures Valid()
      ensures c == ByteAt(old(Consumed()))
      ensures Consumed() == if old(Consumed()) < |content| then old(Consumed()) + 1 else old(Consumed())
    {
      if pos >= bufferSize {
        Refill();
        if bufferSize == 0 {
          return 0 as char;
        }
      }
      c := buffer[pos];
      assert buffer[pos] == buffer[..bufferSize][pos];
      pos := pos + 1;
    }

    /** The byte `next` would return, without consuming it. */
    method Peek() returns (c: char)
      requires Valid()
      modifies this, buffer
      ensures Valid()
      ensures c == ByteAt(old(Consumed())) && Consumed() == old(Consumed())
    {
      if pos >= bufferSize {
        Refill();
        if bufferSize == 0 {
          return 0 as char;
        }
      }
      c := buffer[pos];
      assert buffer[pos] == buffer[..bufferSize][pos];
    }
  }

  /** A client of the contracts alone: after skipping `k` bytes of a file
    * longer than `k`, `peek` and then `next` both yield byte `k`. */
  method SkipThenRead(content: seq<char>, k: nat) returns (p: char, c: char)
    requires k < |content|
    ensures p == content[k] && c == content[k]
  {
    var b := new Buffer(content, k);
    p := b.Peek();
    c := b.Next();
  }
}
