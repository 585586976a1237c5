/**
 * The block-reading byte source of work/v02/include/buffer.h.  The file is
 * its byte content `content`; `file_.read(buffer_, max_buffer_size)`
 * followed by `gcount()` copies the next min(max_buffer_size, remaining)
 * bytes into the fixed-size array and leaves the stream that much further
 * on.  `next` and `peek` return 0 at the end of the file.
 */
module V02Buffer {
  import Text

  const MaxBufferSize: nat := 100000

  class Buffer {
    /** The bytes of the file. */
    const content: seq<char>
    /** Stream position: the bytes read into blocks so far. */
    var filePos: nat
    const buffer: array<char>
    var bufferSize: nat
    var pos: nat

    /** The block in `buffer[..bufferSize]` is the last one read, and the
      * cursor lies inside it. */
    ghost predicate Valid()
      reads this, buffer
    {
      && buffer.Length == MaxBufferSize
      && bufferSize <= MaxBufferSize && pos <= bufferSize
      && bufferSize <= filePos <= |content|
      && buffer[..bufferSize] == content[filePos - bufferSize..filePos]
    }

    /** The number of file bytes handed out (or passed) by `next`. */
    ghost function Consumed(): nat
      reads this
      requires bufferSize <= filePos
    {
      filePos - bufferSize + pos
    }

    /** The byte `next` returns when `k` bytes have been consumed: the file
      * byte, or 0 at the end of the file. */
    ghost function ByteAt(k: nat): char {
      if k < |content| then content[k] else 0 as char
    }

    constructor (content: seq<char>)
      ensures Valid() && fresh(buffer)
      ensures this.content == content && Consumed() == 0
    {
      this.content := content;
      buffer := new char[MaxBufferSize];
      filePos := 0;
      bufferSize := 0;
      pos := 0;
    }

    /** `file_.read` into the block and `gcount()`: the next
      * min(max_buffer_size, remaining) bytes, with the cursor at 0. */
    method Refill()
      requires Valid() && pos == bufferSize
      modifies this, buffer
      ensures Valid() && pos == 0 && Consumed() == old(Consumed())
      ensures bufferSize == if |content| - old(filePos) < MaxBufferSize then |content| - old(filePos) else MaxBufferSize
    {
      var n := if |content| - filePos < MaxBufferSize then |content| - filePos else MaxBufferSize;
      Text.FileRead(buffer, content, filePos, n);
      filePos := filePos + n;
      bufferSize := n;
      pos := 0;
    }

    /** The next file byte, or 0 at the end of the file. */
    method Next() returns (c: char)
      requires Valid()
      modifies this, buffer
      ensures Valid()
      ensures c == ByteAt(old(Consumed()))
      ensures Consumed() == if old(Consumed()) < |content| then old(Consumed()) + 1 else old(Consumed())
    {
      if pos >= bufferSize {
        Refill();
        if bufferSize == 0 {
          return 0 as char;
        }
      }
      c := buffer[pos];
      assert buffer[pos] == buffer[..bufferSize][pos];
      pos := pos + 1;
    }

    /** The byte `next` would return, without consuming it. */
    method Peek() returns (c: char)
      requires Valid()
      modifies this, buffer
      ensures Valid()
      ensures c == ByteAt(old(Consumed())) && Consumed() == old(Consumed())
    {
      if pos >= bufferSize {
        Refill();
        if bufferSize == 0 {
          return 0 as char;
        }
      }
      c := buffer[pos];
      assert buffer[pos] == buffer[..bufferSize][pos];
    }
  }

  /** A client of the contracts alone: `peek` then `next` yield the same
    * byte, and two `next` calls return two successive file bytes. */
  method PeekThenNext(b: Buffer) returns (p: char, c1: char, c2: char)
    requires b.Valid()
    modifies b, b.buffer
    ensures p == c1
    ensures c1 == b.ByteAt(old(b.Consumed())) && c2 == b.ByteAt(old(b.Consumed()) + 1)
  {
    p := b.Peek();
    c1 := b.Next();
    c2 := b.Next();
    if old(b.Consumed()) >= |b.content| {
      assert b.ByteAt(old(b.Consumed()) + 1) == 0 as char;
    }
  }
}
