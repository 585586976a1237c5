/**
 * The line-based CSV reader of src/csvreader.cpp.  The file is its byte
 * content; the reader's `ifstream` is a read position in the bytes from
 * the data offset on, read in blocks of `bufferSize` bytes.  `next_line`
 * is proved against `Run`, the byte-by-byte scan of one line, and
 * `goto_line` against `GotoOf`; the lemmas give the meaning of both for a
 * line laid out as a row of fields.
 */
module SrcCsvReader {
  import opened Text
  import opened LineLayout
  import opened LineScan
  import SrcFile

  // ------------------------------------------------------------ next_line

  /** The body of next_line's loop for the byte `c`. */
  function Step(sep: char, ncolumns: nat, st: LineState, c: char): Move {
    if st.openQuote then
      if c == '"' then Continue(st.(openQuote := false))
      else if c == '\n' then Fail(OpenQuoteAtEnd, st)
      else if c == '\r' then Continue(st)
      else Continue(Collect(st, c))
    else if c == '"' && st.len == 0 then Continue(st.(openQuote := true))
    else if c == sep || c == '\n' then
      var lengths := Put(st.lengths, st.column, st.len);
      var column := st.column + 1;
      if c == '\n' then
        if column > 1 && column < ncolumns then
          Finish(true, st.(lengths := Fill(lengths, column, 0), positions := Fill(st.positions, column, |st.line|), column := column))
        else Finish(column == ncolumns, st.(lengths := lengths, column := column))
      else if column >= ncolumns then Fail(TooManyColumns, st.(lengths := lengths, column := column))
      else Continue(st.(lengths := lengths, column := column, positions := Put(st.positions, column, |st.line|), len := 0))
    else if c == '\r' then Continue(st)
    else Continue(Collect(st, c))
  }

  /** next_line from position `i` of the data: byte by byte until a byte
    * returns or throws, or the data are used up. */
  function Run(sep: char, ncolumns: nat, data: seq<char>, i: nat, st: LineState): (o: Outcome)
    ensures o.lines <= 1 && (o.result == Ok(true) ==> o.lines == 1) && o.next <= |data|
    decreases |data| - i, 1
  {
    if i >= |data| then
      Outcome(Ok(st.column == ncolumns), st, |data|, if st.column == ncolumns then 1 else 0)
    else Resume(sep, ncolumns, data, i, Step(sep, ncolumns, st, data[i]))
  }

  /** The rest of next_line after the byte at `i` made the move `mv`. */
  function Resume(sep: char, ncolumns: nat, data: seq<char>, i: nat, mv: Move): (o: Outcome)
    requires i < |data|
    ensures o.lines <= 1 && (o.result == Ok(true) ==> o.lines == 1) && o.next <= |data|
    decreases |data| - i, 0
  {
    match mv
    case Continue(st1) => Run(sep, ncolumns, data, i + 1, st1)
    case Finish(b, st1) => Outcome(Ok(b), st1, i + 1, 1)
    case Fail(m, st1) => Outcome(Err(m), st1, i + 1, 0)
  }

  /** How one byte's move decides the rest of next_line. */
  lemma StepOutcome(sep: char, ncolumns: nat, data: seq<char>, i: nat, st: LineState, mv: Move)
    requires i < |data| && mv == Step(sep, ncolumns, st, data[i])
    ensures var o := Run(sep, ncolumns, data, i, st);
            && (mv.Continue? ==> o == Run(sep, ncolumns, data, i + 1, mv.st))
            && (!mv.Continue? ==> o.next == i + 1 && o.st == mv.st && o.lines == (if mv.Finish? then 1 else 0))
            && (mv.Finish? ==> o.result == Ok(mv.result))
            && (mv.Fail? ==> o.result == Err(mv.message))
  {
  }

  /** A byte that lets the line go on leaves the outcome to the rest of
    * the data, from the next position and the new state. */
  lemma ContinueOutcome(sep: char, ncolumns: nat, data: seq<char>, i: nat, st: LineState, mv: Move,
                        o: Outcome, i2: nat, st2: LineState)
    requires i < |data| && mv == Step(sep, ncolumns, st, data[i]) && mv.Continue?
    requires o == Run(sep, ncolumns, data, i, st) && i2 == i + 1 && st2 == mv.st
    ensures o == Run(sep, ncolumns, data, i2, st2)
  {
    StepOutcome(sep, ncolumns, data, i, st, mv);
  }

  function NextLineOf(sep: char, ncolumns: nat, data: seq<char>, c: Cursor): (r: LineRead)
    ensures r.after.current <= c.current + 1
    ensures r.result == Ok(true) ==> r.after.current == c.current + 1
  {
    var o := Run(sep, ncolumns, data, c.pos, StartOf(c));
    LineRead(o.result, Cursor(o.next, c.current + o.lines, o.st.size, o.st.positions, o.st.lengths), o.st.line)
  }

  // ------------------------------------------------------------ goto_line

  /** The loop of goto_line: next_line while the target is ahead and every
    * line so far returned true; an exception ends it at once. */
  function Forward(sep: char, ncolumns: nat, data: seq<char>, c: Cursor, target: nat, res: Result<bool>): Reached
    decreases target - c.current, if res == Ok(true) then 1 else 0
  {
    if c.current < target && res == Ok(true) then
      var n := NextLineOf(sep, ncolumns, data, c);
      Forward(sep, ncolumns, data, n.after, target, n.result)
    else Reached(res, c)
  }

  /** goto_line(l): line l + 1 is reached by reading forward, from the start
    * of the data when it lies behind. */
  function GotoOf(sep: char, ncolumns: nat, data: seq<char>, c: Cursor, l: nat): Reached {
    var target := l + 1;
    if c.current == target then Reached(Ok(true), c)
    else Forward(sep, ncolumns, data, if c.current > target then c.(pos := 0, current := 0) else c, target, Ok(true))
  }

  // ------------------------------------------------- determine_* and nlines

  /** determine_ncolumns's loop from byte `i`: `n` separators outside
    * quotes so far, `empty` while no byte but quotes was seen. */
  function NColumnsFrom(sep: char, data: seq<char>, i: nat, n: nat, empty: bool, openQuote: bool): nat
    decreases |data| - i
  {
    if i >= |data| then n
    else
      var c := data[i];
      if c == '"' then NColumnsFrom(sep, data, i + 1, n, empty, !openQuote)
      else if c == sep then
        if openQuote then NColumnsFrom(sep, data, i + 1, n, empty, openQuote)
        else NColumnsFrom(sep, data, i + 1, n + 1, false, openQuote)
      else if c == Nul || c == '\n' then (if empty then n else n + 1)
      else NColumnsFrom(sep, data, i + 1, n, false, openQuote)
  }

  function NColumnsOf(sep: char, data: seq<char>): nat {
    NColumnsFrom(sep, data, 0, 0, true, false)
  }

  /** determine_ncolumns: reads the first line of the data byte by byte. */
  method DetermineNColumns(sep: char, data: seq<char>) returns (n: nat)
    ensures n == NColumnsOf(sep, data)
  {
    n := 0;
    var pos := 0;
    var empty := true;
    var openQuote := false;
    while true
      invariant pos <= |data| && NColumnsFrom(sep, data, pos, n, empty, openQuote) == NColumnsOf(sep, data)
      decreases |data| - pos
    {
      var c: int := if pos < |data| then data[pos] as int else Eof;
      if c == Eof {
        break;
      }
      pos := pos + 1;
      if c == '"' as int {
        openQuote := !openQuote;
      } else if c == sep as int {
        if !openQuote {
          empty := false;
          n := n + 1;
        }
      } else if c == 0 || c == '\n' as int {
        if !empty {
          n := n + 1;
        }
        break;
      } else {
        empty := false;
      }
    }
  }

  // --------------------------------------------------------------- reader

  class CSVReader {
    /** The file. */
    const content: seq<char>
    const sep: char
    /** Bytes before the first data line. */
    const offset: nat
    const bufferSize: nat
    /** The block buffer; `bufferFilled` bytes of it hold data. */
    const buffer: array<char>
    const ncolumns: nat
    const positions: array<nat>
    const lengths: array<nat>
    /** The stream position, counted from `offset`. */
    var readPos: nat
    var bufferFilled: nat
    var pointer: nat
    var currentLine: nat
    /** The line buffer and its size line_size_. */
    var line: array<char>
    var lineSize: nat

    function Data(): seq<char> {
      DataFrom(content, offset)
    }

    /** The arrays and the block buffer, which holds the bytes just before
      * the stream position. */
    ghost predicate Frame()
      reads this, buffer
    {
      && buffer.Length == bufferSize && bufferSize > 0
      && bufferFilled <= bufferSize && bufferFilled <= readPos <= |Data()|
      && buffer[..bufferFilled] == Data()[readPos - bufferFilled..readPos]
      && line.Length == lineSize && line != buffer
      && positions.Length == ncolumns && lengths.Length == ncolumns && positions != lengths
    }

    ghost predicate Valid()
      reads this, buffer
    {
      Frame() && pointer <= bufferFilled
    }

    /** The position of the byte at `pointer`, or the stream position once
      * the block is used up. */
    ghost function At(): nat
      reads this
    {
      if pointer < bufferFilled <= readPos then readPos - bufferFilled + pointer else readPos
    }

    /** Where the next call of next_line starts: the byte after `pointer`. */
    ghost function NextPos(): nat
      reads this
    {
      if pointer < bufferFilled <= readPos then readPos - bufferFilled + pointer + 1 else readPos
    }

    ghost function CursorOf(): Cursor
      reads this, positions, lengths
    {
      Cursor(NextPos(), currentLine, lineSize, positions[..], lengths[..])
    }

    /** next_line's locals together with the buffers. */
    ghost function StateOf(len: nat, colPos: nat, column: nat, openQuote: bool): LineState
      reads this, line, positions, lengths
      requires colPos <= line.Length
    {
      LineState(len, line[..colPos], lineSize, column, openQuote, positions[..], lengths[..])
    }

    /** The constructor: the data offset, a 1024-byte line buffer, the
      * reset stream, the block buffer, and the number of columns of the
      * first data line.  A file starting with a byte order mark is not
      * modelled. */
    constructor (content: seq<char>, sep: char, skip: nat, bufferSize: nat)
      requires bufferSize > 0 && !(|content| >= 3 && content[..3] == SrcFile.Bom)
      ensures Valid() && this.content == content && this.sep == sep && this.bufferSize == bufferSize
      ensures offset == OffsetOf(content, skip) && ncolumns == NColumnsOf(sep, Data())
      ensures NextPos() == 0 && currentLine == 0 && lineSize == LineMinSize
    {
      this.content := content;
      this.sep := sep;
      this.bufferSize := bufferSize;
      var off := DetermineOffset(content, skip);
      offset := off;
      line := new char[LineMinSize];
      lineSize := LineMinSize;
      // reset()
      readPos := 0;
      bufferFilled := 0;
      pointer := 0;
      currentLine := 0;
      buffer := new char[bufferSize];
      var n := DetermineNColumns(sep, DataFrom(content, off));
      ncolumns := n;
      positions := new nat[n];
      lengths := new nat[n];
    }

    /** nlines(): the line ends in the data, read in blocks. */
    method NLines() returns (n: nat)
      ensures n == CountChar(Data(), '\n')
    {
      var data := Data();
      var pos := 0;
      n := 0;
      while true
        invariant pos <= |data| && n == CountChar(data[..pos], '\n')
        decreases |data| - pos
      {
        var nread := Min(CountBlock, |data| - pos);
        if nread == 0 {
          break;
        }
        var i := 0;
        while i < nread
          invariant i <= nread && n == CountChar(data[..pos + i], '\n')
        {
          var b := data[pos + i];
          CountCharPrefix(data, pos + i, '\n', b);
          if b == '\n' {
            n := n + 1;
          }
          i := i + 1;
        }
        pos := pos + nread;
        if nread < CountBlock {
          break;
        }
      }
      assert data[..pos] == data;
    }

    /** reset(): back to the first data byte and line 0. */
    method Reset()
      requires Frame()
      modifies this
      ensures Valid() && CursorOf() == old(CursorOf()).(pos := 0, current := 0)
      ensures line == old(line)
    {
      readPos := 0;
      bufferFilled := 0;
      pointer := 0;
      currentLine := 0;
    }

    /** `file_.read(buffer_, buffer_size_)` and `gcount()`: the next block of
      * at most `bufferSize` bytes. */
    method ReadBlock()
      requires Frame()
      modifies this, buffer
      ensures Frame() && bufferFilled == Min(bufferSize, |Data()| - old(readPos))
      ensures readPos == old(readPos) + bufferFilled
      ensures pointer == old(pointer) && currentLine == old(currentLine)
      ensures line == old(line) && lineSize == old(lineSize)
    {
      var data := Data();
      var start := readPos;
      var n := Min(bufferSize, |data| - start);
      FileRead(buffer, data, start, n);
      readPos := start + n;
      bufferFilled := n;
    }

    /** resize_line_buffer(): a bigger buffer that starts with the strncpy
      * copy of the old one. */
    method ResizeLineBuffer()
      requires Frame()
      modifies this
      ensures Frame() && fresh(line) && lineSize == GrownSize(old(lineSize))
      ensures line[..old(lineSize)] == StrncpyOf(old(line[..]))
      ensures readPos == old(readPos) && bufferFilled == old(bufferFilled)
      ensures pointer == old(pointer) && currentLine == old(currentLine)
    {
      var newSize := lineSize * 2;
      if newSize < LineMinSize {
        newSize := LineMinSize;
      }
      var newLine := new char[newSize];
      Strncpy(newLine, line, 0, lineSize);
      assert line[0..lineSize] == line[..lineSize];
      assert line[..lineSize] == line[..];
      line := newLine;
      lineSize := newSize;
    }

    /** A byte of the field: `line_[column_position++] = c`, growing the
      * buffer first when it is full. */
    method Append(c: char, ghost len: nat, colPos: nat, ghost column: nat, ghost openQuote: bool) returns (colPos2: nat)
      requires Frame() && colPos <= lineSize
      modifies this, line
      ensures Frame() && colPos2 == colPos + 1 && colPos2 <= lineSize && (line == old(line) || fresh(line))
      ensures StateOf(len + 1, colPos2, column, openQuote) == Collect(old(StateOf(len, colPos, column, openQuote)), c)
      ensures readPos == old(readPos) && bufferFilled == old(bufferFilled)
      ensures pointer == old(pointer) && currentLine == old(currentLine)
    {
      if colPos >= lineSize {
        assert line[..colPos] == line[..];
        ResizeLineBuffer();
      }
      line[colPos] := c;
      colPos2 := colPos + 1;
      assert line[..colPos2] == line[..colPos] + [c];
    }

    /** The padding loop of a short line: the fields from `from` on get
      * length 0 at the end of the line. */
    method Pad(from: nat, colPos: nat)
      requires Frame() && from <= ncolumns
      modifies positions, lengths
      ensures lengths[..] == Fill(old(lengths[..]), from, 0)
      ensures positions[..] == Fill(old(positions[..]), from, colPos)
    {
      var i := from;
      while i != ncolumns
        invariant from <= i <= ncolumns
        invariant forall k :: 0 <= k < ncolumns ==> lengths[k] == if from <= k < i then 0 else old(lengths[k])
        invariant forall k :: 0 <= k < ncolumns ==> positions[k] == if from <= k < i then colPos else old(positions[k])
        decreases ncolumns - i
      {
        lengths[i] := 0;
        positions[i] := colPos;
        i := i + 1;
      }
    }

    /** The body of next_line's loop for the byte `c`. */
    method Consume(c: char, len: nat, colPos: nat, column: nat, openQuote: bool, ghost mv: Move)
      returns (stop: bool, r: Result<bool>, len2: nat, colPos2: nat, column2: nat, openQuote2: bool)
      requires Frame() && column < ncolumns && colPos <= lineSize
      requires mv == Step(sep, ncolumns, StateOf(len, colPos, column, openQuote), c)
      modifies this, line, positions, lengths
      ensures Frame() && readPos == old(readPos) && bufferFilled == old(bufferFilled) && pointer == old(pointer)
      ensures line == old(line) || fresh(line)
      ensures colPos2 <= lineSize && (!stop ==> column2 < ncolumns)
      ensures && StateOf(len2, colPos2, column2, openQuote2) == mv.st
              && stop == !mv.Continue?
              && (mv.Finish? ==> r == Ok(mv.result)) && (mv.Fail? ==> r == Err(mv.message))
              && currentLine == old(currentLine) + (if mv.Finish? then 1 else 0)
    {
      stop, r := false, Ok(false);
      len2, colPos2, column2, openQuote2 := len, colPos, column, openQuote;
      if openQuote {
        if c == '"' {
          openQuote2 := false;
        } else if c == '\n' {
          stop, r := true, Err(OpenQuoteAtEnd);
        } else if c == '\r' {
          // ignore \r
        } else {
          colPos2 := Append(c, len, colPos, column, openQuote);
          len2 := len + 1;
        }
      } else if c == '"' && len == 0 {
        openQuote2 := true;
      } else if c == sep || c == '\n' {
        lengths[column] := len;
        column2 := column + 1;
        if c == '\n' {
          currentLine := currentLine + 1;
          stop := true;
          if column2 > 1 && column2 < ncolumns {
            Pad(column2, colPos);
            r := Ok(true);
          } else {
            r := Ok(column2 == ncolumns);
          }
        } else if column2 >= ncolumns {
          stop, r := true, Err(TooManyColumns);
        } else {
          positions[column2] := colPos;
          len2 := 0;
        }
      } else if c == '\r' {
        // ignore \r
      } else {
        colPos2 := Append(c, len, colPos, column, openQuote);
        len2 := len + 1;
      }
    }

    /** The byte at `pointer`, after reading a new block when the last one
      * is used up; `eof` when no byte comes. */
    method Fetch() returns (eof: bool, b: char)
      requires Frame() && pointer <= bufferFilled + 1 && At() <= |Data()|
      modifies this, buffer
      ensures Frame() && At() == old(At()) && currentLine == old(currentLine)
      ensures line == old(line) && lineSize == old(lineSize)
      ensures eof ==> pointer == 0 && bufferFilled == 0 && At() == |Data()|
      ensures !eof ==> pointer < bufferFilled && At() < |Data()| && b == Data()[At()]
    {
      if pointer >= bufferFilled {
        pointer := 0;
        ReadBlock();
        if bufferFilled == 0 {
          return true, 0 as char;
        }
      }
      b := buffer[pointer];
      assert b == Data()[At()] by {
        assert buffer[..bufferFilled][pointer] == b;
      }
      eof := false;
    }

    /** The byte at `pointer` through the body of next_line's loop, and on
      * to the next byte unless it returned or threw. */
    method Absorb(b: char, len: nat, colPos: nat, column: nat, openQuote: bool, ghost at: nat, ghost mv: Move)
      returns (stop: bool, r: Result<bool>, len2: nat, colPos2: nat, column2: nat, openQuote2: bool)
      requires Frame() && pointer < bufferFilled && column < ncolumns && colPos <= lineSize
      requires at == At() && at < |Data()| && mv == Step(sep, ncolumns, StateOf(len, colPos, column, openQuote), b)
      modifies this, line, positions, lengths
      ensures Frame() && (line == old(line) || fresh(line)) && colPos2 <= lineSize && pointer <= bufferFilled
      ensures && StateOf(len2, colPos2, column2, openQuote2) == mv.st
              && stop == !mv.Continue?
              && (mv.Finish? ==> r == Ok(mv.result)) && (mv.Fail? ==> r == Err(mv.message))
              && currentLine == old(currentLine) + (if mv.Finish? then 1 else 0)
      ensures stop ==> NextPos() == at + 1
      ensures !stop ==> column2 < ncolumns && At() == at + 1
    {
      stop, r, len2, colPos2, column2, openQuote2 := Consume(b, len, colPos, column, openQuote, mv);
      if !stop {
        pointer := pointer + 1;
      }
    }

    /** One pass of next_line's loop: the next byte, or the end of the
      * data, through the loop's body; `o` is what the rest of the call
      * comes to. */
    method NextByte(len: nat, colPos: nat, column: nat, openQuote: bool, ghost o: Outcome)
      returns (stop: bool, r: Result<bool>, len2: nat, colPos2: nat, column2: nat, openQuote2: bool)
      requires Frame() && pointer <= bufferFilled + 1 && column < ncolumns && colPos <= lineSize && At() <= |Data()|
      requires o == Run(sep, ncolumns, Data(), At(), StateOf(len, colPos, column, openQuote))
      modifies this, buffer, line, positions, lengths
      ensures Frame() && colPos2 <= lineSize && (line == old(line) || fresh(line))
      ensures !stop ==> && pointer <= bufferFilled + 1 && column2 < ncolumns && currentLine == old(currentLine)
                        && old(At()) < At() <= |Data()| && o == Run(sep, ncolumns, Data(), At(), StateOf(len2, colPos2, column2, openQuote2))
      ensures stop ==> && pointer <= bufferFilled && r == o.result && NextPos() == o.next
                       && currentLine == old(currentLine) + o.lines && StateOf(len2, colPos2, column2, openQuote2) == o.st
    {
      ghost var st := StateOf(len, colPos, column, openQuote);
      var eof, b := Fetch();
      assert StateOf(len, colPos, column, openQuote) == st;
      if eof {
        r := Ok(column == ncolumns);
        currentLine := currentLine + (if column == ncolumns then 1 else 0);
        return true, r, len, colPos, column, openQuote;
      }
      stop, r, len2, colPos2, column2, openQuote2 := Proceed(b, len, colPos, column, openQuote, o);
    }

    /** The byte `b` at `pointer` through the body of next_line's loop. */
    method Proceed(b: char, len: nat, colPos: nat, column: nat, openQuote: bool, ghost o: Outcome)
      returns (stop: bool, r: Result<bool>, len2: nat, colPos2: nat, column2: nat, openQuote2: bool)
      requires Frame() && pointer < bufferFilled && column < ncolumns && colPos <= lineSize
      requires At() < |Data()| && b == Data()[At()]
      requires o == Run(sep, ncolumns, Data(), At(), StateOf(len, colPos, column, openQuote))
      modifies this, line, positions, lengths
      ensures Frame() && colPos2 <= lineSize && (line == old(line) || fresh(line))
      ensures !stop ==> && pointer <= bufferFilled + 1 && column2 < ncolumns && currentLine == old(currentLine)
                        && old(At()) < At() <= |Data()| && o == Run(sep, ncolumns, Data(), At(), StateOf(len2, colPos2, column2, openQuote2))
      ensures stop ==> && pointer <= bufferFilled && r == o.result && NextPos() == o.next
                       && currentLine == old(currentLine) + o.lines && StateOf(len2, colPos2, column2, openQuote2) == o.st
    {
      ghost var at := At();
      ghost var st := StateOf(len, colPos, column, openQuote);
      ghost var mv := Step(sep, ncolumns, st, b);
      StepOutcome(sep, ncolumns, Data(), at, st, mv);
      stop, r, len2, colPos2, column2, openQuote2 := Absorb(b, len, colPos, column, openQuote, at, mv);
      if !stop {
        ContinueOutcome(sep, ncolumns, Data(), at, st, mv, o, At(), StateOf(len2, colPos2, column2, openQuote2));
      }
    }

    /** next_line(): reads one line into the line buffer and the spans;
      * true when it has the expected number of fields (or, short of it, at
      * least two, the rest padded), false otherwise and at the end of the
      * data; the two exceptions become errors.  The warning on a short
      * line is not modelled. */
    method NextLine() returns (r: Result<bool>)
      requires Valid() && ncolumns >= 1
      modifies this, buffer, line, positions, lengths
      ensures Valid() && (line == old(line) || fresh(line))
      ensures var n := NextLineOf(sep, ncolumns, Data(), old(CursorOf()));
              && r == n.result && CursorOf() == n.after
              && |n.line| <= line.Length && line[..|n.line|] == n.line
    {
      ghost var c0 := CursorOf();
      pointer := pointer + 1;
      var len: nat, colPos: nat, column: nat, openQuote := 0, 0, 0, false;
      positions[0] := 0;
      ghost var st0 := StateOf(0, 0, 0, false);
      assert st0 == StartOf(c0);
      assert At() == c0.pos;
      ghost var o0 := Run(sep, ncolumns, Data(), c0.pos, st0);
      var stop := false;
      r := Ok(false);
      while !stop
        invariant Frame() && colPos <= lineSize && (line == old(line) || fresh(line))
        invariant !stop ==> && pointer <= bufferFilled + 1 && column < ncolumns && currentLine == c0.current
                            && At() <= |Data()| && o0 == Run(sep, ncolumns, Data(), At(), StateOf(len, colPos, column, openQuote))
        invariant stop ==> && pointer <= bufferFilled && r == o0.result && NextPos() == o0.next
                           && currentLine == c0.current + o0.lines && StateOf(len, colPos, column, openQuote) == o0.st
        decreases if stop then 0 else 1, |Data()| - At()
      {
        stop, r, len, colPos, column, openQuote := NextByte(len, colPos, column, openQuote, o0);
      }
    }

    /** goto_line(l): line l + 1 becomes the current line; true when every
      * line read on the way returned true. */
    method GotoLine(l: nat) returns (r: Result<bool>)
      requires Valid() && ncolumns >= 1
      modifies this, buffer, line, positions, lengths
      ensures Valid() && Reached(r, CursorOf()) == GotoOf(sep, ncolumns, Data(), old(CursorOf()), l)
    {
      var target := l + 1;
      if currentLine == target {
        return Ok(true);
      }
      if currentLine > target {
        Reset();
      }
      r := Ok(true);
      while currentLine < target && r == Ok(true)
        invariant Valid() && (line == old(line) || fresh(line))
        invariant Forward(sep, ncolumns, Data(), CursorOf(), target, r) == GotoOf(sep, ncolumns, Data(), old(CursorOf()), l)
        decreases target - currentLine, if r == Ok(true) then 1 else 0
      {
        r := NextLine();
      }
    }

    /** get_buffer(i): field i starts at `positions[i]` of the line buffer. */
    method GetBuffer(i: nat) returns (b: array<char>, start: nat)
      requires Frame() && i < ncolumns
      ensures b == line && start == positions[i]
    {
      b, start := line, positions[i];
    }

    /** get_length(i). */
    method GetLength(i: nat) returns (n: nat)
      requires Frame() && i < ncolumns
      ensures n == lengths[i]
    {
      n := lengths[i];
    }
  }

  // ------------------------------------------------------ meaning lemmas

  /** The bytes of a plain field: every byte but '\r' is collected. */
  lemma {:induction false} RunPlainText(sep: char, ncolumns: nat, data: seq<char>, i: nat, t: seq<char>, e: nat, st: LineState)
    requires PlainSeparator(sep) && !st.openQuote
    requires e == i + |t| && e <= |data| && data[i..e] == t
    requires forall k :: 0 <= k < |t| ==> t[k] != sep && t[k] != '\n'
    requires st.len > 0 || |Dropped(t)| == 0 || Dropped(t)[0] != '"'
    ensures Run(sep, ncolumns, data, i, st) == Run(sep, ncolumns, data, e, CollectAll(st, Dropped(t)))
    decreases |t|
  {
    if |t| > 0 {
      SliceTail(data, i, t);
      var c := t[0];
      assert Dropped(t) == (if c == '\r' then [] else [c]) + Dropped(t[1..]);
      StepOutcome(sep, ncolumns, data, i, st, Step(sep, ncolumns, st, c));
      if c == '\r' {
        assert Step(sep, ncolumns, st, c) == Continue(st);
        assert Dropped(t) == Dropped(t[1..]);
        RunPlainText(sep, ncolumns, data, i + 1, t[1..], e, st);
      } else {
        var st1 := Collect(st, c);
        assert Step(sep, ncolumns, st, c) == Continue(st1);
        assert CollectAll(st, Dropped(t)) == CollectAll(st1, Dropped(t[1..]));
        RunPlainText(sep, ncolumns, data, i + 1, t[1..], e, st1);
      }
    } else {
      assert Dropped(t) == [];
    }
  }

  /** The bytes inside quotes: every byte but '\r' is collected. */
  lemma {:induction false} RunQuotedText(sep: char, ncolumns: nat, data: seq<char>, i: nat, t: seq<char>, e: nat, st: LineState)
    requires st.openQuote
    requires e == i + |t| && e <= |data| && data[i..e] == t
    requires forall k :: 0 <= k < |t| ==> t[k] != '"' && t[k] != '\n'
    ensures Run(sep, ncolumns, data, i, st) == Run(sep, ncolumns, data, e, CollectAll(st, Dropped(t)))
    decreases |t|
  {
    if |t| > 0 {
      SliceTail(data, i, t);
      var c := t[0];
      assert Dropped(t) == (if c == '\r' then [] else [c]) + Dropped(t[1..]);
      StepOutcome(sep, ncolumns, data, i, st, Step(sep, ncolumns, st, c));
      if c == '\r' {
        assert Dropped(t) == Dropped(t[1..]);
        RunQuotedText(sep, ncolumns, data, i + 1, t[1..], e, st);
      } else {
        var st1 := Collect(st, c);
        assert CollectAll(st, Dropped(t)) == CollectAll(st1, Dropped(t[1..]));
        RunQuotedText(sep, ncolumns, data, i + 1, t[1..], e, st1);
      }
    } else {
      assert Dropped(t) == [];
    }
  }

  /** A field read from its start: its value is collected. */
  lemma RunField(sep: char, ncolumns: nat, data: seq<char>, i: nat, f: Field, st: LineState)
    requires PlainSeparator(sep) && !st.openQuote && st.len == 0 && Simple(sep, f)
    requires i + |Raw(f)| <= |data| && data[i..i + |Raw(f)|] == Raw(f)
    ensures Run(sep, ncolumns, data, i, st) == Run(sep, ncolumns, data, i + |Raw(f)|, CollectAll(st, Value(f)))
  {
    match f
    case Plain(t) =>
      RunPlainText(sep, ncolumns, data, i, t, i + |t|, st);
    case Quoted(t) =>
      QuotedSlice(data, i, t);
      RunQuotedField(sep, ncolumns, data, i, t, st);
  }

  /** A quoted field: the opening quote, the text, the closing quote. */
  lemma RunQuotedField(sep: char, ncolumns: nat, data: seq<char>, i: nat, t: seq<char>, st: LineState)
    requires !st.openQuote && st.len == 0
    requires i + |t| + 2 <= |data| && data[i] == '"' && data[i + 1..i + 1 + |t|] == t && data[i + 1 + |t|] == '"'
    requires forall k :: 0 <= k < |t| ==> t[k] != '"' && t[k] != '\n'
    ensures Run(sep, ncolumns, data, i, st) == Run(sep, ncolumns, data, i + |t| + 2, CollectAll(st, Dropped(t)))
  {
    var sq := st.(openQuote := true);
    StepOutcome(sep, ncolumns, data, i, st, Step(sep, ncolumns, st, '"'));
    RunQuotedText(sep, ncolumns, data, i + 1, t, i + 1 + |t|, sq);
    CollectAllQuote(st, Dropped(t), true);
    CollectAllQuote(st, Dropped(t), false);
    assert st.(openQuote := false) == st;
    var e := CollectAll(sq, Dropped(t));
    StepOutcome(sep, ncolumns, data, i + 1 + |t|, e, Step(sep, ncolumns, e, '"'));
    assert e.(openQuote := false) == CollectAll(st, Dropped(t));
  }

  /** A field followed by the separator: its span is recorded and the next
    * field starts, or it was the last field there is room for. */
  lemma FieldThenSeparator(sep: char, ncolumns: nat, data: seq<char>, i: nat, f: Field, st: LineState, vals: seq<seq<char>>)
    requires PlainSeparator(sep) && FieldStart(ncolumns, st) && Spans(st, vals) && Simple(sep, f)
    requires i + |Raw(f)| < |data| && data[i..i + |Raw(f)|] == Raw(f) && data[i + |Raw(f)|] == sep
    ensures st.column + 1 >= ncolumns ==> Run(sep, ncolumns, data, i, st).result == Err(TooManyColumns)
    ensures st.column + 1 < ncolumns ==>
              var st2 := NextField(CollectAll(st, Value(f)));
              && Run(sep, ncolumns, data, i, st) == Run(sep, ncolumns, data, i + |Raw(f)| + 1, st2)
              && FieldStart(ncolumns, st2) && Spans(st2, vals + [Value(f)]) && st2.line == st.line + Value(f)
  {
    RunField(sep, ncolumns, data, i, f, st);
    var v := Value(f);
    var e := CollectAll(st, v);
    assert NoNul(v) by {
      assert forall k :: 0 <= k < |f.text| ==> f.text[k] != Nul;
      DroppedKeeps(f.text);
    }
    CollectAllEffect(st, v);
    var j := i + |Raw(f)|;
    if st.column + 1 < ncolumns {
      var st2 := NextField(e);
      assert Step(sep, ncolumns, e, sep) == Continue(st2);
      SpansGrow(st, e, vals, v);
      assert Spans(st2, vals + [v]) by {
        SpansNext(e, vals, v);
      }
    }
  }

  /** What Run gives back for a line whose row ended at `next` with `k`
    * fields: one line read, true for a full line and for two fields or
    * more, the line buffer `line` with the spans `vals`, and the missing
    * fields of a short line at length 0 past the end of the line. */
  predicate Ended(ncolumns: nat, o: Outcome, k: nat, next: nat, line: seq<char>, vals: seq<seq<char>>) {
    && o.next == next && o.lines == 1 && o.result == Ok(k == ncolumns || 1 < k)
    && o.st.line == line && Spans(o.st, vals)
    && |o.st.lengths| == ncolumns && |o.st.positions| == ncolumns
    && (1 < k < ncolumns ==> forall j :: k <= j < ncolumns ==> o.st.lengths[j] == 0 && o.st.positions[j] == |line|)
  }

  /** The last field, followed by '\n': the line is complete. */
  lemma LastField(sep: char, ncolumns: nat, data: seq<char>, i: nat, f: Field, st: LineState, vals: seq<seq<char>>)
    requires PlainSeparator(sep) && FieldStart(ncolumns, st) && Spans(st, vals) && Simple(sep, f)
    requires i + |Raw(f)| < |data| && data[i..i + |Raw(f)|] == Raw(f) && data[i + |Raw(f)|] == '\n'
    ensures Ended(ncolumns, Run(sep, ncolumns, data, i, st), st.column + 1, i + |Raw(f)| + 1, st.line + Value(f), vals + [Value(f)])
  {
    RunField(sep, ncolumns, data, i, f, st);
    var v := Value(f);
    assert NoNul(v) by {
      DroppedKeeps(f.text);
    }
    CollectAllEffect(st, v);
    var e := CollectAll(st, v);
    var j := i + |Raw(f)|;
    var k := st.column + 1;
    StepOutcome(sep, ncolumns, data, j, e, Step(sep, ncolumns, e, '\n'));
    var lengths := Put(e.lengths, e.column, e.len);
    SpansGrow(st, e, vals, v);
    assert e.line[e.positions[e.column]..] == v;
    SpansClose(e, vals, v, lengths);
    var closed := e.(lengths := lengths, column := k);
    if 1 < k < ncolumns {
      var padded := closed.(lengths := Fill(lengths, k, 0), positions := Fill(e.positions, k, |e.line|));
      assert Step(sep, ncolumns, e, '\n') == Finish(true, padded);
      SpansSame(closed, padded, vals + [v]);
    } else {
      assert Step(sep, ncolumns, e, '\n') == Finish(k == ncolumns, closed);
    }
  }

  /** The rest of the row ended the line: so did the whole row. */
  lemma EndedRow(ncolumns: nat, o: Outcome, k: nat, next: nat, line: seq<char>, vals: seq<seq<char>>, fields: seq<Field>)
    requires |fields| > 1 && Ended(ncolumns, o, k, next, line + Value(fields[0]) + Joined(fields[1..]), vals + [Value(fields[0])] + Values(fields[1..]))
    ensures Ended(ncolumns, o, k, next, line + Joined(fields), vals + Values(fields))
  {
    JoinedCons(line, vals, fields);
  }

  /** A row of fields read from a field start: an error when it has more
    * fields than there is room for, otherwise the whole line with the
    * span of every field. */
  lemma {:induction false} RunRow(sep: char, ncolumns: nat, data: seq<char>, i: nat, fields: seq<Field>, st: LineState, vals: seq<seq<char>>)
    requires PlainSeparator(sep) && RowAt(data, i, sep, fields) && FieldStart(ncolumns, st) && Spans(st, vals)
    ensures st.column + |fields| > ncolumns ==> Run(sep, ncolumns, data, i, st).result == Err(TooManyColumns)
    ensures st.column + |fields| <= ncolumns ==>
              Ended(ncolumns, Run(sep, ncolumns, data, i, st), st.column + |fields|, RowEnd(i, fields), st.line + Joined(fields), vals + Values(fields))
    decreases |fields|
  {
    var f := fields[0];
    if |fields| == 1 {
      LastField(sep, ncolumns, data, i, f, st, vals);
      assert Values(fields) == [Value(f)];
      assert Joined(fields) == Value(f) + Joined(fields[1..]);
      assert Value(f) + Joined(fields[1..]) == Value(f);
    } else {
      FieldThenSeparator(sep, ncolumns, data, i, f, st, vals);
      if st.column + 1 < ncolumns {
        var st2 := NextField(CollectAll(st, Value(f)));
        RunRow(sep, ncolumns, data, i + |Raw(f)| + 1, fields[1..], st2, vals + [Value(f)]);
        if st.column + |fields| <= ncolumns {
          EndedRow(ncolumns, Run(sep, ncolumns, data, i + |Raw(f)| + 1, st2), st.column + |fields|, RowEnd(i, fields), st.line, vals, fields);
        }
      }
    }
  }

  /** What next_line gives back for a row of `k` fields that fits the
    * columns, ending at `next`: true for a full line and for a short line
    * of at least two fields, false for a line of one field; the position
    * `next` after the row's '\n'; one more line read; the line buffer
    * `line`, span j holding `vals[j]`; and the missing fields of a short
    * line at length 0 past the end of the line. */
  predicate ReadBack(ncolumns: nat, c: Cursor, k: nat, next: nat, line: seq<char>, vals: seq<seq<char>>, n: LineRead) {
    && k <= ncolumns && |vals| == k && n.result == Ok(k == ncolumns || k > 1)
    && n.after.pos == next && n.after.current == c.current + 1
    && n.line == line
    && |n.after.lengths| == ncolumns && |n.after.positions| == ncolumns
    && (forall j :: 0 <= j < k ==>
          && n.after.positions[j] + n.after.lengths[j] <= |line|
          && line[n.after.positions[j]..n.after.positions[j] + n.after.lengths[j]] == vals[j])
    && (1 < k < ncolumns ==> forall j :: k <= j < ncolumns ==> n.after.lengths[j] == 0 && n.after.positions[j] == |line|)
  }

  lemma EndedReadBack(ncolumns: nat, c: Cursor, k: nat, next: nat, line: seq<char>, vals: seq<seq<char>>, o: Outcome)
    requires k <= ncolumns && |vals| == k && Ended(ncolumns, o, k, next, line, vals)
    ensures ReadBack(ncolumns, c, k, next, line, vals, LineRead(o.result, Cursor(o.next, c.current + o.lines, o.st.size, o.st.positions, o.st.lengths), o.st.line))
  {
  }

  /** next_line on a line laid out as a row of fields: more fields than
    * columns throw, and otherwise the line reads back as the values of
    * its fields. */
  lemma NextLineRow(sep: char, ncolumns: nat, data: seq<char>, c: Cursor, fields: seq<Field>)
    requires PlainSeparator(sep) && ncolumns >= 1 && |c.positions| == ncolumns && |c.lengths| == ncolumns
    requires RowAt(data, c.pos, sep, fields)
    ensures |fields| > ncolumns ==> NextLineOf(sep, ncolumns, data, c).result == Err(TooManyColumns)
    ensures |fields| <= ncolumns ==>
              ReadBack(ncolumns, c, |fields|, RowEnd(c.pos, fields), Joined(fields), Values(fields), NextLineOf(sep, ncolumns, data, c))
  {
    var st := StartOf(c);
    assert FieldStart(ncolumns, st);
    assert Spans(st, []);
    RunRow(sep, ncolumns, data, c.pos, fields, st, []);
    assert [] + Values(fields) == Values(fields);
    assert [] + Joined(fields) == Joined(fields);
    if |fields| <= ncolumns {
      EndedReadBack(ncolumns, c, |fields|, RowEnd(c.pos, fields), Joined(fields), Values(fields), Run(sep, ncolumns, data, c.pos, st));
    }
  }

  // ------------------------------------------------- the end of the data

  /** Only a '\n' can finish a line, and a separator never moves the field
    * index past the last column: without a line end ahead, next_line
    * throws or returns false when the data run out, and the line is not
    * counted. */
  lemma {:induction false} RunNoLineEnd(sep: char, ncolumns: nat, data: seq<char>, i: nat, st: LineState)
    requires st.column < ncolumns
    requires forall k :: i <= k < |data| ==> data[k] != '\n'
    ensures var o := Run(sep, ncolumns, data, i, st);
            && o.lines == 0 && (o.result.Err? || (o.result == Ok(false) && o.next == |data|))
    decreases |data| - i
  {
    if i < |data| {
      var mv := Step(sep, ncolumns, st, data[i]);
      StepOutcome(sep, ncolumns, data, i, st, mv);
      if mv.Continue? {
        RunNoLineEnd(sep, ncolumns, data, i + 1, mv.st);
      }
    }
  }

  /** A last line without '\n' is never returned as a line. */
  lemma NextLineAtEnd(sep: char, ncolumns: nat, data: seq<char>, c: Cursor)
    requires ncolumns >= 1
    requires forall k :: c.pos <= k < |data| ==> data[k] != '\n'
    ensures var n := NextLineOf(sep, ncolumns, data, c);
            && n.after.current == c.current && (n.result.Err? || (n.result == Ok(false) && n.after.pos == |data|))
  {
    RunNoLineEnd(sep, ncolumns, data, c.pos, StartOf(c));
  }

  /** Inside a quote every byte but a quote belongs to the field, and a
    * line end throws. */
  lemma {:induction false} RunOpenQuote(sep: char, ncolumns: nat, data: seq<char>, i: nat, j: nat, st: LineState)
    requires st.openQuote && i <= j < |data| && data[j] == '\n'
    requires forall k :: i <= k < j ==> data[k] != '"' && data[k] != '\n'
    ensures var o := Run(sep, ncolumns, data, i, st);
            o.result == Err(OpenQuoteAtEnd) && o.next == j + 1 && o.lines == 0
    decreases j - i
  {
    var mv := Step(sep, ncolumns, st, data[i]);
    StepOutcome(sep, ncolumns, data, i, st, mv);
    if i < j {
      RunOpenQuote(sep, ncolumns, data, i + 1, j, mv.st);
    }
  }

  /** A line that opens a quote and ends before closing it throws. */
  lemma NextLineOpenQuote(sep: char, ncolumns: nat, data: seq<char>, c: Cursor, j: nat)
    requires c.pos < j < |data| && data[c.pos] == '"' && data[j] == '\n'
    requires forall k :: c.pos < k < j ==> data[k] != '"' && data[k] != '\n'
    ensures var n := NextLineOf(sep, ncolumns, data, c);
            n.result == Err(OpenQuoteAtEnd) && n.after.pos == j + 1 && n.after.current == c.current
  {
    var st := StartOf(c);
    StepOutcome(sep, ncolumns, data, c.pos, st, Step(sep, ncolumns, st, '"'));
    RunOpenQuote(sep, ncolumns, data, c.pos + 1, j, st.(openQuote := true));
  }

  // ------------------------------------------------------------ goto_line

  /** Reading forward never passes the target line, and ends on it unless
    * a line returned false or threw. */
  lemma {:induction false} ForwardReaches(sep: char, ncolumns: nat, data: seq<char>, c: Cursor, target: nat, res: Result<bool>)
    requires c.current <= target
    ensures var r := Forward(sep, ncolumns, data, c, target, res);
            && r.at.current <= target && (r.result == Ok(true) ==> r.at.current == target)
            && (res != Ok(true) ==> r == Reached(res, c))
    decreases target - c.current, if res == Ok(true) then 1 else 0
  {
    if c.current < target && res == Ok(true) {
      var n := NextLineOf(sep, ncolumns, data, c);
      ForwardReaches(sep, ncolumns, data, n.after, target, n.result);
    }
  }

  /** goto_line(l) ends at most on line l + 1, and on it when it returns
    * true; the data are read again from the start only when the current
    * line lies past the target. */
  lemma GotoReaches(sep: char, ncolumns: nat, data: seq<char>, c: Cursor, l: nat)
    ensures var r := GotoOf(sep, ncolumns, data, c, l);
            && r.at.current <= l + 1 && (r.result == Ok(true) ==> r.at.current == l + 1)
            && (c.current == l + 1 ==> r == Reached(Ok(true), c))
  {
    var target := l + 1;
    if c.current != target {
      ForwardReaches(sep, ncolumns, data, if c.current > target then c.(pos := 0, current := 0) else c, target, Ok(true));
    }
  }

  // ------------------------------------------------- determine_ncolumns

  /** Every byte of the field is the separator (none at all for a plain
    * field, which holds no separator): determine_ncolumns sees an empty
    * line. */
  predicate Blank(sep: char, f: Field) {
    forall k :: 0 <= k < |f.text| ==> f.text[k] == sep
  }

  /** No quote in a plain field: determine_ncolumns toggles its quote flag
    * on every quote, next_line only on one at the start of a field. */
  predicate QuoteFree(f: Field) {
    f.Quoted? || forall k :: 0 <= k < |f.text| ==> f.text[k] != '"'
  }

  /** determine_ncolumns over text without quotes or line ends: inside a
    * quote, separators change nothing, and any other byte makes the line
    * non-empty. */
  lemma {:induction false} NColText(sep: char, data: seq<char>, i: nat, t: seq<char>, n: nat, empty: bool, q: bool)
    requires i + |t| <= |data| && data[i..i + |t|] == t
    requires forall k :: 0 <= k < |t| ==> t[k] != '"' && t[k] != '\n' && t[k] != Nul && (q || t[k] != sep)
    ensures NColumnsFrom(sep, data, i, n, empty, q) == NColumnsFrom(sep, data, i + |t|, n, empty && forall k :: 0 <= k < |t| ==> t[k] == sep, q)
    decreases |t|
  {
    if |t| > 0 {
      assert data[i] == t[0];
      assert data[i + 1..i + |t|] == t[1..];
      NColText(sep, data, i + 1, t[1..], n, empty && t[0] == sep, q);
      assert (forall k :: 0 <= k < |t| ==> t[k] == sep) == (t[0] == sep && forall k :: 0 <= k < |t[1..]| ==> t[1..][k] == sep);
    }
  }

  /** determine_ncolumns over a quoted text: the quotes toggle the flag
    * and leave it as it was. */
  lemma NColQuoted(sep: char, data: seq<char>, i: nat, t: seq<char>, n: nat, empty: bool)
    requires i + |t| + 2 <= |data| && data[i] == '"' && data[i + 1..i + 1 + |t|] == t && data[i + 1 + |t|] == '"'
    requires forall k :: 0 <= k < |t| ==> t[k] != '"' && t[k] != '\n' && t[k] != Nul
    ensures NColumnsFrom(sep, data, i, n, empty, false) == NColumnsFrom(sep, data, i + |t| + 2, n, empty && forall k :: 0 <= k < |t| ==> t[k] == sep, false)
  {
    NColText(sep, data, i + 1, t, n, empty, true);
  }

  /** determine_ncolumns over one field as the file holds it. */
  lemma NColField(sep: char, data: seq<char>, i: nat, f: Field, n: nat, empty: bool)
    requires PlainSeparator(sep) && Simple(sep, f) && QuoteFree(f)
    requires i + |Raw(f)| <= |data| && data[i..i + |Raw(f)|] == Raw(f)
    ensures NColumnsFrom(sep, data, i, n, empty, false) == NColumnsFrom(sep, data, i + |Raw(f)|, n, empty && Blank(sep, f), false)
  {
    match f
    case Plain(t) =>
      NColText(sep, data, i, t, n, empty, false);
    case Quoted(t) =>
      QuotedSlice(data, i, t);
      NColQuoted(sep, data, i, t, n, empty);
  }

  /** determine_ncolumns over a row of fields: one column per field, but
    * none for a line that is one blank field. */
  lemma {:induction false} NColRow(sep: char, data: seq<char>, i: nat, fields: seq<Field>, n: nat, empty: bool)
    requires PlainSeparator(sep) && RowAt(data, i, sep, fields)
    requires forall k :: 0 <= k < |fields| ==> QuoteFree(fields[k])
    ensures NColumnsFrom(sep, data, i, n, empty, false) == if |fields| == 1 && empty && Blank(sep, fields[0]) then n else n + |fields|
    decreases |fields|
  {
    var f := fields[0];
    var j := i + |Raw(f)|;
    var e := empty && Blank(sep, f);
    NColField(sep, data, i, f, n, empty);
    if |fields| > 1 {
      assert data[j] == sep;
      assert NColumnsFrom(sep, data, j, n, e, false) == NColumnsFrom(sep, data, j + 1, n + 1, false, false);
      assert RowAt(data, j + 1, sep, fields[1..]);
      assert forall k :: 0 <= k < |fields| - 1 ==> fields[1..][k] == fields[k + 1];
      NColRow(sep, data, j + 1, fields[1..], n + 1, false);
    } else {
      assert data[j] == '\n';
      assert NColumnsFrom(sep, data, j, n, e, false) == if e then n else n + 1;
    }
  }

  /** The number of columns of data whose first line is a row of fields
    * without quotes inside plain fields. */
  lemma NColumnsOfRow(sep: char, data: seq<char>, fields: seq<Field>)
    requires PlainSeparator(sep) && RowAt(data, 0, sep, fields)
    requires forall k :: 0 <= k < |fields| ==> QuoteFree(fields[k])
    ensures NColumnsOf(sep, data) == if |fields| == 1 && Blank(sep, fields[0]) then 0 else |fields|
  {
    NColRow(sep, data, 0, fields, 0, true);
  }

  /** The first line of such data, read with the number of columns the
    * reader determined, reads back in full. */
  lemma FirstLineReadBack(sep: char, data: seq<char>, fields: seq<Field>, c: Cursor)
    requires PlainSeparator(sep) && RowAt(data, 0, sep, fields)
    requires forall k :: 0 <= k < |fields| ==> QuoteFree(fields[k])
    requires !(|fields| == 1 && Blank(sep, fields[0]))
    requires c.pos == 0 && |c.positions| == |fields| && |c.lengths| == |fields|
    ensures var nc := NColumnsOf(sep, data);
            && nc == |fields|
            && ReadBack(nc, c, |fields|, RowEnd(0, fields), Joined(fields), Values(fields), NextLineOf(sep, nc, data, c))
            && NextLineOf(sep, nc, data, c).result == Ok(true)
  {
    NColumnsOfRow(sep, data, fields);
    NextLineRow(sep, |fields|, data, c, fields);
  }

  /** determine_ncolumns and next_line disagree on a quote inside a
    * field: the first line `a"b,c` counts one column, and reading it then
    * throws. */
  lemma QuoteInsideField()
    ensures NColumnsOf(',', "a\"b,c\n") == 1
    ensures NextLineOf(',', 1, "a\"b,c\n", Cursor(0, 0, LineMinSize, [0], [0])).result == Err(TooManyColumns)
  {
    QuoteInsideFieldCounted();
    QuoteInsideFieldRead();
  }

  lemma QuoteInsideFieldCounted()
    ensures NColumnsOf(',', "a\"b,c\n") == 1
  {
  }

  lemma QuoteInsideFieldRead()
    ensures NextLineOf(',', 1, "a\"b,c\n", Cursor(0, 0, LineMinSize, [0], [0])).result == Err(TooManyColumns)
  {
    var d := "a\"b,c\n";
    var c := Cursor(0, 0, LineMinSize, [0], [0]);
    var st0 := StartOf(c);
    var o := Run(',', 1, d, 0, st0);
    var st1 := Collect(st0, 'a');
    ContinueOutcome(',', 1, d, 0, st0, Step(',', 1, st0, 'a'), o, 1, st1);
    var st2 := Collect(st1, '"');
    ContinueOutcome(',', 1, d, 1, st1, Step(',', 1, st1, '"'), o, 2, st2);
    var st3 := Collect(st2, 'b');
    ContinueOutcome(',', 1, d, 2, st2, Step(',', 1, st2, 'b'), o, 3, st3);
    var mv := Step(',', 1, st3, ',');
    assert mv.Fail? && mv.message == TooManyColumns;
    StepOutcome(',', 1, d, 3, st3, mv);
  }
}
