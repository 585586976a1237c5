/**
 * The fixed-width reader of LaF/src/fwfreader.cpp.  Every record of the
 * file is as long as its first line (the bytes up to and including the
 * first '\n'), record `n` starts at byte `n * linesize`, and the block
 * buffer holds a whole number of records.  The file is its byte content;
 * the reader's `ifstream` is a stream position and its good flag: a read
 * of `n` bytes gets what is left of them and leaves the stream good only
 * when it got all `n`.
 */
module LaFFwfReader {
  import Text
  import opened LineLayout
  import opened LineScan

  // ----------------------------------------------------- record layout

  /** determine_linesize's loop from byte `i`. */
  function LineSizeFrom(content: seq<char>, i: nat): nat
    decreases |content| - i
  {
    if i >= |content| then |content|
    else if content[i] == '\n' then i + 1
    else LineSizeFrom(content, i + 1)
  }

  /** determine_linesize: the bytes up to and including the first '\n',
    * or the whole file when it has none. */
  function LineSizeOf(content: seq<char>): nat {
    LineSizeFrom(content, 0)
  }

  lemma {:induction false} LineSizeFromMeaning(content: seq<char>, i: nat)
    requires i <= |content| && forall k :: 0 <= k < i ==> content[k] != '\n'
    ensures var n := LineSizeFrom(content, i);
            && i <= n <= |content| && (i < |content| ==> i < n)
            && (forall k :: 0 <= k < n - 1 ==> content[k] != '\n')
            && ((0 < n && content[n - 1] == '\n') || (n == |content| && forall k :: 0 <= k < |content| ==> content[k] != '\n'))
    decreases |content| - i
  {
    if i < |content| && content[i] != '\n' {
      LineSizeFromMeaning(content, i + 1);
    }
  }

  /** The line size is the position just past the first '\n', or the file
    * length without one; a non-empty file has records of at least one
    * byte. */
  lemma LineSizeOfMeaning(content: seq<char>)
    ensures var n := LineSizeOf(content);
            && n <= |content| && (|content| > 0 ==> n > 0)
            && (forall k :: 0 <= k < n - 1 ==> content[k] != '\n')
            && ((0 < n && content[n - 1] == '\n') || (n == |content| && forall k :: 0 <= k < |content| ==> content[k] != '\n'))
  {
    LineSizeFromMeaning(content, 0);
  }

  /** determine_linesize: `get` byte by byte up to the first '\n'. */
  method DetermineLineSize(content: seq<char>) returns (linesize: nat)
    ensures linesize == LineSizeOf(content)
  {
    linesize := 0;
    var pos := 0;
    while pos < |content|
      invariant pos <= |content| && linesize == pos
      invariant LineSizeFrom(content, pos) == LineSizeOf(content)
      decreases |content| - pos
    {
      var c := content[pos];
      pos := pos + 1;
      linesize := linesize + 1;
      if c == '\n' {
        break;
      }
    }
  }

  /** The bytes a read of `n` bytes at stream position `pos` gets. */
  function Got(content: seq<char>, pos: nat, n: nat): (g: nat)
    ensures g <= n && (g > 0 ==> pos + g <= |content|)
    ensures g < n ==> pos + g >= |content|
  {
    if pos >= |content| then 0 else Min(n, |content| - pos)
  }

  function Sum(w: seq<nat>): nat
    decreases |w|
  {
    if |w| == 0 then 0 else Sum(w[..|w| - 1]) + w[|w| - 1]
  }

  /** Columns side by side: each starts where the ones before it end. */
  ghost predicate Contiguous(starts: seq<nat>, widths: seq<nat>) {
    |starts| == |widths| && forall k :: 0 <= k < |starts| ==> starts[k] == Sum(widths[..k])
  }

  /** A column added by its width keeps the columns side by side. */
  lemma ContiguousPush(starts: seq<nat>, widths: seq<nat>, w: nat)
    requires Contiguous(starts, widths)
    ensures var start := if |starts| > 0 then starts[|starts| - 1] + widths[|starts| - 1] else 0;
            Contiguous(starts + [start], widths + [w])
  {
    var n := |starts|;
    var start := if n > 0 then starts[n - 1] + widths[n - 1] else 0;
    var ws := widths + [w];
    assert ws[..n] == widths;
    if n > 0 {
      assert widths[..n][..n - 1] == widths[..n - 1];
      assert widths[..n] == widths;
    }
    assert start == Sum(ws[..n]);
    forall k | 0 <= k < n + 1
      ensures (starts + [start])[k] == Sum(ws[..k])
    {
      if k < n {
        assert ws[..k] == widths[..k];
      }
    }
  }

  /** The offset of record `k` for records of `size` bytes, as repeated
    * addition, which keeps the reader's invariant linear. */
  ghost function Times(k: nat, size: nat): nat {
    if k == 0 then 0 else Times(k - 1, size) + size
  }

  lemma {:induction false} TimesIsProduct(k: nat, size: nat)
    ensures Times(k, size) == k * size
  {
    if k > 0 {
      TimesIsProduct(k - 1, size);
    }
  }

  lemma {:induction false} TimesMonotone(a: nat, b: nat, size: nat)
    requires a <= b
    ensures Times(a, size) <= Times(b, size)
    decreases b - a
  {
    if a < b {
      TimesMonotone(a, b - 1, size);
    }
  }

  /** A record that starts inside a block of whole records ends inside it. */
  lemma RecordFits(slot: nat, blocks: nat, size: nat)
    requires Times(slot, size) < Times(blocks, size)
    ensures Times(slot, size) + size <= Times(blocks, size)
  {
    if blocks <= slot {
      TimesMonotone(blocks, slot, size);
    }
    TimesMonotone(slot + 1, blocks, size);
  }

  /** The strncpy of next_line(): the `line.Length - 1` bytes of the block
    * from `at` into the line buffer, whose last byte stays.  The block holds
    * the file from `off` on, and `m` of the bytes copied come from it. */
  method CopyRecord(line: array<char>, buffer: array<char>, at: nat, ghost content: seq<char>, ghost off: nat, ghost m: nat)
    requires line != buffer && line.Length >= 1 && at + line.Length - 1 <= buffer.Length
    requires m <= line.Length - 1 && off + at + m <= |content|
    requires forall k :: at <= k < at + m ==> buffer[k] == content[off + k]
    modifies line
    ensures line[..m] == StrncpyOf(content[off + at..off + at + m])
    ensures line[line.Length - 1] == old(line[line.Length - 1])
  {
    var n := line.Length - 1;
    Strncpy(line, buffer, at, n);
    ghost var got := buffer[at..at + n];
    forall j | 0 <= j < m
      ensures got[..m][j] == content[off + at..off + at + m][j]
    {
      assert got[..m][j] == buffer[at + j];
    }
    assert got[..m] == content[off + at..off + at + m];
    StrncpyOfPrefix(got, m);
    assert line[..m] == line[..n][..m];
    assert line[n..][0] == line[n];
  }

  // ------------------------------------------------------------ reader

  class FWFReader {
    /** The file. */
    const content: seq<char>
    /** linesize_: the length of a record. */
    const linesize: nat
    /** The records a block holds, and buffersize_, the bytes it holds. */
    const blocks: nat
    const bufferChars: nat
    const buffer: array<char>
    /** line_: the current record, NUL-terminated in its last byte. */
    const line: array<char>
    var nlines: nat
    /** The stream position and whether the stream is good. */
    var readPos: nat
    var good: bool
    var charsInBuffer: nat
    var currentIndex: nat
    /** Whether current_char_ points into the buffer (it holds
      * `buffer + current_index_` then) or is null. */
    var live: bool
    var currentLine: nat
    /** start_ and nchar_. */
    var starts: seq<nat>
    var widths: seq<nat>
    /** The record at the reading position, and the record of the block
      * at `currentIndex`. */
    ghost var record: nat
    ghost var slot: nat

    /** The arrays and the columns. */
    ghost predicate Shape()
      reads this
    {
      && linesize >= 1 && bufferChars == Times(blocks, linesize)
      && buffer.Length == bufferChars && line.Length == linesize && line != buffer
      && |starts| == |widths|
    }

    /** The line buffer ends in a NUL byte. */
    ghost predicate Terminated()
      reads line
    {
      line.Length >= 1 && line[line.Length - 1] == Nul
    }

    ghost predicate Frame()
      reads this, line
    {
      Shape() && Terminated()
    }

    /** The block buffer holds the bytes just before the stream position. */
    ghost predicate Block()
      reads this, buffer
    {
      && buffer.Length == bufferChars
      && charsInBuffer <= bufferChars && charsInBuffer <= readPos
      && (charsInBuffer > 0 ==> readPos <= |content| && forall k :: 0 <= k < charsInBuffer ==> buffer[k] == content[readPos - charsInBuffer + k])
    }

    /** The reading position is a record boundary inside the block; a good
      * stream has filled a whole block, and the stream stops being good
      * only at the end of the file. */
    ghost predicate Cursor()
      reads this
    {
      && currentIndex == Times(slot, linesize)
      && readPos - charsInBuffer + currentIndex == Times(record, linesize)
      && (good ==> charsInBuffer == bufferChars && currentIndex <= charsInBuffer)
      && (!good ==> readPos >= |content|)
      && (!live ==> !good && currentIndex >= charsInBuffer)
    }

    ghost predicate Valid()
      reads this, buffer, line
    {
      Frame() && Block() && Cursor()
    }

    /** The byte the next record is read from. */
    ghost function Pos(): int
      reads this
    {
      readPos - charsInBuffer + currentIndex
    }

    /** The next_line() calls that return true from the reading position
      * on. */
    ghost function RecordsLeft(): nat
      reads this
      requires Shape() && Cursor()
    {
      if bufferChars > 0 then RecordsFrom(|content|, linesize, Pos()) else 0
    }

    /** The constructor: the record length from the first line, a block of
      * `buffersize` records, the number of records unless given, and the
      * reset stream.  An empty file has no record length and is excluded:
      * the constructor writes `line_[linesize_ - 1]`. */
    constructor (content: seq<char>, buffersize: nat, nlines: nat)
      requires |content| > 0
      ensures Valid() && this.content == content && linesize == LineSizeOf(content)
      ensures blocks == buffersize && bufferChars == linesize * buffersize
      ensures this.nlines == if nlines == 0 then (|content| % 0x1_0000_0000) / linesize else nlines
      ensures currentLine == 0 && Pos() == 0 && record == 0 && starts == [] && widths == []
      ensures nlines == 0 && bufferChars > 0 && |content| < 0x1_0000_0000 ==>
                RecordsLeft() == this.nlines + (if |content| % linesize == 0 then 0 else 1)
    {
      this.content := content;
      var size := DetermineLineSize(content);
      LineSizeOfMeaning(content);
      linesize := size;
      blocks := buffersize;
      bufferChars := size * buffersize;
      TimesIsProduct(buffersize, size);
      buffer := new char[size * buffersize];
      var l := new char[size];
      l[size - 1] := Nul;
      l[0] := Nul;
      line := l;
      this.nlines := nlines;
      readPos := 0;
      good := true;
      charsInBuffer := 0;
      currentIndex := 0;
      live := false;
      currentLine := 0;
      starts := [];
      widths := [];
      new;
      if nlines == 0 {
        var n := DetermineNLines();
        this.nlines := n;
      }
      Reset();
    }

    /** next_block(): with a good stream, a block read into the buffer; the
      * current pointer is null otherwise. */
    method NextBlock()
      requires Frame()
      modifies this, buffer
      ensures Frame() && currentLine == old(currentLine) && nlines == old(nlines)
      ensures starts == old(starts) && widths == old(widths) && record == old(record)
      ensures !old(good) ==> && !live && !good && readPos == old(readPos)
                             && charsInBuffer == old(charsInBuffer) && currentIndex == old(currentIndex) && slot == old(slot)
                             && unchanged(buffer)
      ensures old(good) ==> var n := Got(content, old(readPos), bufferChars);
                && live && currentIndex == 0 && slot == 0 && charsInBuffer == n
                && readPos == old(readPos) + n && good == (n == bufferChars)
                && (n > 0 ==> forall k :: 0 <= k < n ==> buffer[k] == content[old(readPos) + k])
    {
      live := false;
      if good {
        var n := Got(content, readPos, bufferChars);
        if n > 0 {
          Text.FileRead(buffer, content, readPos, n);
        }
        good := n == bufferChars;
        readPos := readPos + n;
        charsInBuffer := n;
        live := true;
        currentIndex := 0;
        slot := 0;
      }
    }

    /** reset(): the stream cleared and back at byte 0, line 0, and the
      * first block read. */
    method Reset()
      requires Frame()
      modifies this, buffer
      ensures Valid() && currentLine == 0 && Pos() == 0 && record == 0
      ensures nlines == old(nlines) && starts == old(starts) && widths == old(widths)
    {
      good := true;
      readPos := 0;
      currentLine := 0;
      record := 0;
      NextBlock();
    }

    /** next_line(): the record at the reading position copied (as strncpy
      * copies it) into the line buffer; false when no byte of it is left. */
    method NextLine() returns (r: bool)
      requires Valid()
      modifies this, buffer, line
      ensures Valid() && nlines == old(nlines) && starts == old(starts) && widths == old(widths)
      ensures r == (old(Pos()) < |content| && bufferChars > 0)
      ensures r ==> && Pos() == old(Pos()) + linesize && record == old(record) + 1
                    && currentLine == old(currentLine) + 1
                    && var m := Min(linesize - 1, |content| - old(Pos()));
                       line[..m] == StrncpyOf(content[old(Pos())..old(Pos()) + m])
      ensures !r ==> && Pos() == old(Pos()) && record == old(record) && currentLine == old(currentLine)
                     && line[..] == old(line[..])
      ensures r == (old(RecordsLeft()) > 0) && (r ==> RecordsLeft() == old(RecordsLeft()) - 1)
    {
      Refill();
      if !live || charsInBuffer == 0 {
        return false;
      }
      CopyCurrent();
      Advance();
      r := true;
    }

    /** The strncpy of next_line(): the record at the reading position, as
      * far as the file holds it, into the line buffer. */
    method CopyCurrent()
      requires Valid() && live && currentIndex < charsInBuffer
      modifies line
      ensures Valid()
      ensures var m := Min(linesize - 1, |content| - Pos());
              line[..m] == StrncpyOf(content[Pos()..Pos() + m])
    {
      ghost var m := Min(linesize - 1, |content| - Pos());
      RecordInBlock();
      CopyRecord(line, buffer, currentIndex, content, readPos - charsInBuffer, m);
    }

    /** The first half of next_line(): a block read when the last one is
      * used up; a record is then left exactly when the reading position is
      * inside the file. */
    method Refill()
      requires Valid()
      modifies this, buffer
      ensures Valid() && nlines == old(nlines) && starts == old(starts) && widths == old(widths)
      ensures Pos() == old(Pos()) && record == old(record) && currentLine == old(currentLine)
      ensures (live && charsInBuffer > 0) == (old(Pos()) < |content| && bufferChars > 0)
      ensures live && charsInBuffer > 0 ==> currentIndex < charsInBuffer
    {
      if currentIndex >= charsInBuffer {
        NextBlock();
      }
    }

    /** The record at the reading position lies inside the block, and so
      * does the part of it that the file holds. */
    lemma RecordInBlock()
      requires Valid() && live && currentIndex < charsInBuffer
      ensures currentIndex + linesize <= bufferChars && Pos() < |content|
      ensures currentIndex + Min(linesize - 1, |content| - Pos()) <= charsInBuffer
    {
      RecordFits(slot, blocks, linesize);
    }

    /** The reading position moved past the record just copied. */
    method Advance()
      requires Valid() && live && currentIndex < charsInBuffer
      modifies this
      ensures Valid() && nlines == old(nlines) && starts == old(starts) && widths == old(widths)
      ensures Pos() == old(Pos()) + linesize && record == old(record) + 1
      ensures currentLine == old(currentLine) + 1
    {
      RecordFits(slot, blocks, linesize);
      currentIndex := currentIndex + linesize;
      slot := slot + 1;
      record := record + 1;
      currentLine := currentLine + 1;
    }

    /** goto_line(n): the stream cleared and moved to record `n`, a block
      * read from there, and record `n` read as by next_line. */
    method GotoLine(n: nat) returns (r: bool)
      requires Frame()
      modifies this, buffer, line
      ensures Valid() && nlines == old(nlines) && starts == old(starts) && widths == old(widths)
      ensures var p := n * linesize;
              && r == (p < |content| && bufferChars > 0)
              && currentLine == (if r then n + 1 else n) && record == currentLine
              && Pos() == (if r then p + linesize else p)
              && (r ==> var m := Min(linesize - 1, |content| - p); line[..m] == StrncpyOf(content[p..p + m]))
    {
      Seek(n);
      r := NextLine();
    }

    /** The first half of goto_line(n): the stream cleared and moved to
      * record `n`, and a block read from there. */
    method Seek(n: nat)
      requires Frame()
      modifies this, buffer
      ensures Valid() && nlines == old(nlines) && starts == old(starts) && widths == old(widths)
      ensures currentLine == n && record == n && Pos() == n * linesize
    {
      TimesIsProduct(n, linesize);
      good := true;
      readPos := n * linesize;
      record := n;
      NextBlock();
      currentLine := n;
    }

    /** get_current_line(). */
    method GetCurrentLine() returns (l: nat)
      ensures l == currentLine + 1
    {
      l := currentLine + 1;
    }

    /** get_buffer(i): column i starts at `start_[i]` of the line buffer. */
    method GetBuffer(i: nat) returns (b: array<char>, start: nat)
      requires i < |starts|
      ensures b == line && start == starts[i]
    {
      b, start := line, starts[i];
    }

    /** get_length(i). */
    method GetLength(i: nat) returns (n: nat)
      requires i < |widths|
      ensures n == widths[i]
    {
      n := widths[i];
    }

    /** add_column(start, nchar). */
    method AddColumnAt(start: nat, nchar: nat)
      requires Frame()
      modifies this
      ensures Frame() && starts == old(starts) + [start] && widths == old(widths) + [nchar]
      ensures unchanged(this`readPos, this`good, this`charsInBuffer, this`currentIndex, this`live, this`currentLine)
      ensures record == old(record) && slot == old(slot) && nlines == old(nlines)
    {
      starts := starts + [start];
      widths := widths + [nchar];
    }

    /** add_column(nchar): the column starts where the last one ends. */
    method AddColumn(nchar: nat)
      requires Frame()
      modifies this
      ensures Frame() && widths == old(widths) + [nchar]
      ensures starts == old(starts) + [if |old(starts)| > 0 then old(starts[|starts| - 1] + widths[|starts| - 1]) else 0]
      ensures Contiguous(old(starts), old(widths)) ==> Contiguous(starts, widths)
      ensures unchanged(this`readPos, this`good, this`charsInBuffer, this`currentIndex, this`live, this`currentLine)
      ensures record == old(record) && slot == old(slot) && nlines == old(nlines)
    {
      var start := 0;
      if |starts| > 0 {
        start := starts[|starts| - 1] + widths[|starts| - 1];
      }
      if Contiguous(starts, widths) {
        ContiguousPush(starts, widths, nchar);
      }
      AddColumnAt(start, nchar);
    }

    /** determine_nlines(): the size of the file, as the `unsigned int`
      * it is stored in, over the record length; it resets the stream on
      * the way. */
    method DetermineNLines() returns (n: nat)
      requires Frame()
      modifies this, buffer
      ensures Valid() && currentLine == 0 && Pos() == 0 && record == 0
      ensures nlines == old(nlines) && starts == old(starts) && widths == old(widths)
      ensures n == (|content| % 0x1_0000_0000) / linesize
      ensures |content| < 0x1_0000_0000 && bufferChars > 0 ==>
                RecordsLeft() == n + (if |content| % linesize == 0 then 0 else 1)
    {
      // tellg() stored in an `unsigned int`: the size modulo 2^32
      var nbytes := |content| % 0x1_0000_0000;
      Reset();
      n := nbytes / linesize;
      NLinesMeaning(|content|, linesize);
    }
  }

  /** The number of next_line() calls that return true from the reading
    * position `pos` on, in a file of `size` bytes: by the contract of
    * `FWFReader.NextLine` a call returns true exactly while the position is
    * inside the file (given a block of at least one byte), and then moves
    * it on by one record. */
  ghost function RecordsFrom(size: nat, linesize: nat, pos: nat): nat
    requires linesize >= 1
    decreases size - pos
  {
    if pos < size then 1 + RecordsFrom(size, linesize, pos + linesize) else 0
  }

  lemma {:induction false} RecordsFromShift(size: nat, linesize: nat, pos: nat)
    requires linesize >= 1
    ensures RecordsFrom(size + linesize, linesize, pos + linesize) == RecordsFrom(size, linesize, pos)
    decreases size - pos
  {
    if pos < size {
      RecordsFromShift(size, linesize, pos + linesize);
    }
  }

  /** `k` whole records and `r` more bytes: `k` reads, and one more for a
    * partial record. */
  lemma {:induction false} RecordsOfTimes(k: nat, r: nat, linesize: nat)
    requires linesize >= 1 && r < linesize
    ensures RecordsFrom(Times(k, linesize) + r, linesize, 0) == k + (if r == 0 then 0 else 1)
  {
    if k > 0 {
      var rest := Times(k - 1, linesize) + r;
      RecordsOfTimes(k - 1, r, linesize);
      RecordsFromShift(rest, linesize, 0);
      assert Times(k, linesize) + r == rest + linesize;
    } else if r > 0 {
      assert RecordsFrom(r, linesize, linesize) == 0;
    }
  }

  /** What determine_nlines() counts: reading from the start, next_line()
    * returns true `size / linesize` times when the file ends on a record
    * boundary, and once more for a partial last record, which nlines_ does
    * not count. */
  lemma NLinesMeaning(size: nat, linesize: nat)
    requires linesize >= 1
    ensures RecordsFrom(size, linesize, 0) == size / linesize + (if size % linesize == 0 then 0 else 1)
  {
    TimesIsProduct(size / linesize, linesize);
    RecordsOfTimes(size / linesize, size % linesize, linesize);
  }
}
