/**
 * The first prototype, work/v01/main.cpp: a block-reading `Buffer` and a
 * CSV state machine that adds up the `atoif` value of every field.  The
 * file is its byte content; the sum `finished_reading` prints is returned
 * by `Parse` instead.
 */
module V01Main {
  import opened Text
  import opened CsvLayout
  import V01Atoif

  const MaxBufferSize: nat := 100000

  /** The byte source: `file_.read(buffer_, max_buffer_size)` and `gcount()`
    * copy the next min(max_buffer_size, remaining) bytes of `content` into
    * the block. */
  class Buffer {
    const content: seq<char>
    /** Stream position: the bytes read into blocks so far. */
    var filePos: nat
    const buffer: array<char>
    var bufferSize: nat
    var pos: nat

    ghost predicate Valid()
      reads this, buffer
    {
      && buffer.Length == MaxBufferSize
      && bufferSize <= MaxBufferSize && pos <= bufferSize
      && bufferSize <= filePos <= |content|
      && buffer[..bufferSize] == content[filePos - bufferSize..filePos]
    }

    /** The number of file bytes handed out by `next`. */
    ghost function Consumed(): nat
      reads this
      requires bufferSize <= filePos
    {
      filePos - bufferSize + pos
    }

    /** The byte `next` returns when `k` bytes have been consumed. */
    ghost function ByteAt(k: nat): char {
      if k < |content| then content[k] else 0 as char
    }

    constructor (content: seq<char>)
      ensures Valid() && fresh(buffer)
      ensures this.content == content && Consumed() == 0
    {
      this.content := content;
      buffer := new char[MaxBufferSize];
      filePos := 0;
      bufferSize := 0;
      pos := 0;
    }

    /** Read the next block, with the cursor at its start. */
    method Refill()
      requires Valid() && pos == bufferSize
      modifies this, buffer
      ensures Valid() && pos == 0 && Consumed() == old(Consumed())
      ensures bufferSize == if |content| - old(filePos) < MaxBufferSize then |content| - old(filePos) else MaxBufferSize
    {
      var n := if |content| - filePos < MaxBufferSize then |content| - filePos else MaxBufferSize;
      FileRead(buffer, content, filePos, n);
      filePos := filePos + n;
      bufferSize := n;
      pos := 0;
    }

    /** The next file byte, or 0 at the end of the file. */
    method Next() returns (c: char)
      requires Valid()
      modifies this, buffer
      ensures Valid()
      ensures c == ByteAt(old(Consumed()))
      ensures Consumed() == if old(Consumed()) < |content| then old(Consumed()) + 1 else old(Consumed())
    {
      if pos >= bufferSize {
        Refill();
        if bufferSize == 0 {
          return 0 as char;
        }
      }
      c := buffer[pos];
      assert buffer[pos] == buffer[..bufferSize][pos];
      pos := pos + 1;
    }

    /** The byte `next` would return, without consuming it. */
    method Peek() returns (c: char)
      requires Valid()
      modifies this, buffer
      ensures Valid()
      ensures c == ByteAt(old(Consumed())) && Consumed() == old(Consumed())
    {
      if pos >= bufferSize {
        Refill();
        if bufferSize == 0 {
          return 0 as char;
        }
      }
      c := buffer[pos];
      assert buffer[pos] == buffer[..bufferSize][pos];
    }
  }

  /** Successive `next` calls give successive file bytes, and `peek` the
    * byte the following `next` gives. */
  method NextNextPeek(b: Buffer) returns (c1: char, c2: char, p: char, c3: char)
    requires b.Valid()
    modifies b, b.buffer
    ensures c1 == b.ByteAt(old(b.Consumed())) && c2 == b.ByteAt(old(b.Consumed()) + 1)
    ensures p == c3 && c3 == b.ByteAt(old(b.Consumed()) + 2)
  {
    ghost var k := b.Consumed();
    c1 := b.Next();
    ghost var k1 := b.Consumed();
    c2 := b.Next();
    ghost var k2 := b.Consumed();
    p := b.Peek();
    c3 := b.Next();
    ByteSteps(b, k, k1, k2);
  }

  /** Once the file is used up `next` stays where it is and gives 0, so the
    * bytes after one or two `next` calls are those one and two further on. */
  lemma ByteSteps(b: Buffer, k: nat, k1: nat, k2: nat)
    requires k1 == if k < |b.content| then k + 1 else k
    requires k2 == if k1 < |b.content| then k1 + 1 else k1
    ensures b.ByteAt(k1) == b.ByteAt(k + 1) && b.ByteAt(k2) == b.ByteAt(k + 2)
  {
  }

  // ------------------------------------------------------------ the reader

  /** Size of the scratch array a field is collected in. */
  const TextBufferSize: nat := 1024

  datatype State = NewRec | InRec | InRecQ | EndRec

  /** The reader between two bytes: the machine state, the field collected
    * so far, the running sum and the row and column counters. */
  datatype Scan = Scan(state: State, field: seq<char>, sum: int, row: nat, col: nat)

  /** new_record: the field's `atoif` value is added and the column moves on. */
  function RecordOf(sc: Scan): Scan {
    sc.(sum := sc.sum + V01Atoif.AtoifOf(sc.field), col := sc.col + 1)
  }

  /** end_of_line: the next row starts at column 0. */
  function EndOfLineOf(sc: Scan): Scan {
    sc.(col := 0, row := sc.row + 1)
  }

  /** state_newrec: a quote opens a quoted field, line breaks are skipped,
    * every other byte (',' included) starts a plain field. */
  function NewRecStep(sc: Scan, c: char): Scan {
    if c == '"' then sc.(field := [], state := InRecQ)
    else if c == '\n' || c == '\r' then sc
    else sc.(field := [c], state := InRec)
  }

  /** state_inrec: '\n' ends the field and the line, ',' the field; every
    * other byte is collected. */
  function InRecStep(sc: Scan, c: char): Scan {
    if c == '\n' then EndOfLineOf(RecordOf(sc)).(state := NewRec)
    else if c == ',' then RecordOf(sc).(state := NewRec)
    else sc.(field := sc.field + [c])
  }

  /** state_inrecq: every quote closes the field; there are no escapes. */
  function InRecQStep(sc: Scan, c: char): Scan {
    if c == '"' then RecordOf(sc).(state := EndRec)
    else sc.(field := sc.field + [c])
  }

  /** state_endrec: a line break ends the line (and falls through to the
    * ',' case), ',' waits for the next field, anything else is ignored. */
  function EndRecStep(sc: Scan, c: char): Scan {
    if c == '\n' || c == '\r' then EndOfLineOf(sc).(state := NewRec)
    else if c == ',' then sc.(state := NewRec)
    else sc
  }

  function Step(sc: Scan, c: char): Scan {
    match sc.state
    case NewRec => NewRecStep(sc, c)
    case InRec => InRecStep(sc, c)
    case InRecQ => InRecQStep(sc, c)
    case EndRec => EndRecStep(sc, c)
  }

  /** The main loop over the bytes `s[i..]`. */
  function Run(s: seq<char>, i: nat, sc: Scan): Scan
    decreases |s| - i
  {
    if i >= |s| then sc else Run(s, i + 1, Step(sc, s[i]))
  }

  /** No step of the run collects a field longer than the scratch array. */
  predicate FitsFrom(s: seq<char>, i: nat, sc: Scan)
    decreases |s| - i
  {
    i >= |s| || (|Step(sc, s[i]).field| <= TextBufferSize && FitsFrom(s, i + 1, Step(sc, s[i])))
  }

  class CSVReader {
    const readBuffer: Buffer
    const buffer: array<char>
    var bufferPos: nat
    var state: State
    var row: nat
    var col: nat
    var sum: int

    ghost predicate Valid()
      reads this, buffer, readBuffer, readBuffer.buffer
    {
      && buffer.Length == TextBufferSize && bufferPos <= TextBufferSize
      && readBuffer.Valid() && buffer != readBuffer.buffer
    }

    ghost function Snapshot(): Scan
      reads this, buffer
      requires bufferPos <= buffer.Length
    {
      Scan(state, buffer[..bufferPos], sum, row, col)
    }

    /** The bytes the main loop of parse() will see. */
    ghost function Input(): seq<char>
      reads this, buffer, readBuffer, readBuffer.buffer
      requires Valid()
    {
      UntilZero(readBuffer.content, readBuffer.Consumed())
    }

    /** The reader starts in NEWREC; the scratch length and the counters,
      * left unset by the source, start at 0 here. */
    constructor (content: seq<char>)
      ensures Valid() && fresh(readBuffer) && fresh(readBuffer.buffer)
      ensures readBuffer.content == content && readBuffer.Consumed() == 0
      ensures Snapshot() == Scan(NewRec, [], 0, 0, 0)
    {
      readBuffer := new Buffer(content);
      buffer := new char[TextBufferSize];
      bufferPos := 0;
      state := NewRec;
      row := 0;
      col := 0;
      sum := 0;
    }

    method NewRecord()
      requires Valid()
      modifies this
      ensures Valid() && Snapshot() == RecordOf(old(Snapshot()))
    {
      var v := V01Atoif.Atoif(buffer[..bufferPos]);
      sum := sum + v;
      col := col + 1;
    }

    method EndOfLine()
      requires Valid()
      modifies this
      ensures Valid() && Snapshot() == EndOfLineOf(old(Snapshot()))
    {
      col := 0;
      row := row + 1;
    }

    method StateNewRec(c: char)
      requires Valid() && state == NewRec
      modifies this, buffer
      ensures Valid() && Snapshot() == NewRecStep(old(Snapshot()), c)
    {
      if c == '"' {
        bufferPos := 0;
        state := InRecQ;
      } else if c == '\n' || c == '\r' {
      } else {
        bufferPos := 0;
        buffer[bufferPos] := c;
        bufferPos := bufferPos + 1;
        state := InRec;
        assert buffer[..bufferPos] == [c];
      }
    }

    /** Collect `c` at the end of the field. */
    method Append(c: char)
      requires Valid() && bufferPos < TextBufferSize
      modifies this, buffer
      ensures Valid() && Snapshot() == old(Snapshot()).(field := old(Snapshot()).field + [c])
    {
      buffer[bufferPos] := c;
      bufferPos := bufferPos + 1;
      assert buffer[..bufferPos] == old(buffer[..bufferPos]) + [c];
    }

    method StateInRec(c: char)
      requires Valid() && state == InRec && |InRecStep(Snapshot(), c).field| <= TextBufferSize
      modifies this, buffer
      ensures Valid() && Snapshot() == InRecStep(old(Snapshot()), c)
    {
      if c == '\n' {
        NewRecord();
        EndOfLine();
        state := NewRec;
      } else if c == ',' {
        NewRecord();
        state := NewRec;
      } else {
        Append(c);
      }
    }

    method StateInRecQ(c: char)
      requires Valid() && state == InRecQ && |InRecQStep(Snapshot(), c).field| <= TextBufferSize
      modifies this, buffer
      ensures Valid() && Snapshot() == InRecQStep(old(Snapshot()), c)
    {
      if c == '"' {
        NewRecord();
        state := EndRec;
      } else {
        Append(c);
      }
    }

    method StateEndRec(c: char)
      requires Valid() && state == EndRec
      modifies this
      ensures Valid() && Snapshot() == EndRecStep(old(Snapshot()), c)
    {
      if c == '\n' || c == '\r' {
        EndOfLine();
        state := NewRec;
      } else if c == ',' {
        state := NewRec;
      }
    }

    method Dispatch(c: char)
      requires Valid() && |Step(Snapshot(), c).field| <= TextBufferSize
      modifies this, buffer
      ensures Valid() && Snapshot() == Step(old(Snapshot()), c)
    {
      match state {
        case NewRec => StateNewRec(c);
        case InRec => StateInRec(c);
        case InRecQ => StateInRecQ(c);
        case EndRec => StateEndRec(c);
      }
    }

    /** One turn of the main loop of parse(): `next`, and unless it gave 0
      * the step on that byte. */
    method Turn(ghost input: seq<char>, ghost c0: nat, ghost j: nat) returns (stop: bool)
      requires Valid() && c0 <= |readBuffer.content| && input == UntilZero(readBuffer.content, c0)
      requires j <= |input| && readBuffer.Consumed() == c0 + j
      requires FitsFrom(input, j, Snapshot())
      modifies this, buffer, readBuffer, readBuffer.buffer
      ensures Valid()
      ensures stop ==> j == |input| && Snapshot() == old(Snapshot())
      ensures !stop ==> (j < |input| && readBuffer.Consumed() == c0 + j + 1
        && Run(input, j, old(Snapshot())) == Run(input, j + 1, Snapshot())
        && FitsFrom(input, j + 1, Snapshot()))
    {
      UntilZeroByte(readBuffer.content, c0, j);
      ghost var sc := Snapshot();
      var c := readBuffer.Next();
      if c == 0 as char {
        return true;
      }
      assert sc == Snapshot();
      RunAdvance(input, j, sc, c);
      Dispatch(c);
      stop := false;
    }

    /** parse(): `start_reading` clears the sum, the counters are reset,
      * the bytes up to the first 0 (or the end of the file) are run
      * through the machine, and the sum that `finished_reading` prints is
      * returned. */
    method Parse() returns (printed: int)
      requires Valid()
      requires FitsFrom(Input(), 0, Scan(state, buffer[..bufferPos], 0, 0, 0))
      modifies this, buffer, readBuffer, readBuffer.buffer
      ensures Valid()
      ensures Snapshot() == Run(old(Input()), 0, Scan(old(state), old(buffer[..bufferPos]), 0, 0, 0))
      ensures printed == Snapshot().sum
    {
      ghost var input := Input();
      ghost var c0 := readBuffer.Consumed();
      sum := 0;
      row := 0;
      col := 0;
      ghost var sc0 := Snapshot();
      ghost var j: nat := 0;
      while true
        invariant Valid() && j <= |input| && readBuffer.Consumed() == c0 + j
        invariant Run(input, 0, sc0) == Run(input, j, Snapshot())
        invariant FitsFrom(input, j, Snapshot())
        decreases |input| - j
      {
        var stop := Turn(input, c0, j);
        if stop {
          break;
        }
        j := j + 1;
      }
      printed := sum;
    }
  }

  /** One step of the run. */
  lemma RunAdvance(s: seq<char>, i: nat, sc: Scan, c: char)
    requires i < |s| && c == s[i]
    ensures Run(s, i, sc) == Run(s, i + 1, Step(sc, c))
    ensures FitsFrom(s, i, sc) ==> |Step(sc, c).field| <= TextBufferSize && FitsFrom(s, i + 1, Step(sc, c))
  {
  }

  // ---------------------------------------------------------- meaning lemmas

  /** Inside an unquoted field every byte but ',' and '\n' is collected. */
  lemma {:induction false} RunPlainField(s: seq<char>, i: nat, k: nat, sc: Scan)
    requires sc.state == InRec && i <= k <= |s|
    requires forall p :: i <= p < k ==> s[p] != ',' && s[p] != '\n'
    ensures Run(s, i, sc) == Run(s, k, sc.(field := sc.field + s[i..k]))
    decreases k - i
  {
    if i < k {
      var sc1 := sc.(field := sc.field + [s[i]]);
      assert Run(s, i, sc) == Run(s, i + 1, sc1);
      RunPlainField(s, i + 1, k, sc1);
      assert sc1.field + s[i + 1..k] == sc.field + s[i..k];
    } else {
      assert sc.field + s[i..k] == sc.field;
    }
  }

  /** A plain field and its terminator, ',' or '\n', read from a record
    * start: the field's value is added, and '\n' also ends the line. */
  lemma FieldThenSeparator(s: seq<char>, i: nat, f: seq<char>, sep: char, sc: Scan)
    requires sc.state == NewRec && PlainField(f) && (sep == ',' || sep == '\n')
    requires i + |f| < |s| && s[i..i + |f|] == f && s[i + |f|] == sep
    ensures var r := Scan(NewRec, f, sc.sum + V01Atoif.AtoifOf(f), sc.row, sc.col + 1);
            Run(s, i, sc) == Run(s, i + |f| + 1, if sep == '\n' then EndOfLineOf(r) else r)
  {
    assert s[i] == f[0];
    var sc1 := sc.(field := [f[0]], state := InRec);
    assert Run(s, i, sc) == Run(s, i + 1, sc1);
    forall p | i + 1 <= p < i + |f|
      ensures s[p] != ',' && s[p] != '\n'
    {
      assert s[p] == f[p - i];
    }
    RunPlainField(s, i + 1, i + |f|, sc1);
    assert [f[0]] + s[i + 1..i + |f|] == f;
    var sc2 := sc.(field := f, state := InRec);
    assert sc1.(field := sc1.field + s[i + 1..i + |f|]) == sc2;
    RunAdvance(s, i + |f|, sc2, s[i + |f|]);
    SeparatorStep(sc, f, sep);
  }

  /** The separator after a plain field adds the field's value, and '\n'
    * also ends the line. */
  lemma SeparatorStep(sc: Scan, f: seq<char>, sep: char)
    requires sep == ',' || sep == '\n'
    ensures var r := Scan(NewRec, f, sc.sum + V01Atoif.AtoifOf(f), sc.row, sc.col + 1);
            Step(sc.(field := f, state := InRec), sep) == if sep == '\n' then EndOfLineOf(r) else r
  {
  }

  /** The sum of the `atoif` values of `fields`. */
  function SumOf(fields: seq<seq<char>>): int
    decreases |fields|
  {
    if |fields| == 0 then 0 else V01Atoif.AtoifOf(fields[0]) + SumOf(fields[1..])
  }

  /** A row of plain fields read from a record start: their values are
    * added to the sum and the next row starts at column 0. */
  lemma {:induction false} RunRow(s: seq<char>, i: nat, fields: seq<seq<char>>, sc: Scan)
    requires sc.state == NewRec && RowAt(s, i, fields)
    ensures Run(s, i, sc)
         == Run(s, RowEnd(i, fields), Scan(NewRec, fields[|fields| - 1], sc.sum + SumOf(fields), sc.row + 1, 0))
    decreases |fields|
  {
    if |fields| > 1 {
      var t1 := Scan(NewRec, fields[0], sc.sum + V01Atoif.AtoifOf(fields[0]), sc.row, sc.col + 1);
      RunRowHead(s, i, fields, sc, t1);
      RunRow(s, i + |fields[0]| + 1, fields[1..], t1);
      RunRowJoin(s, i, fields, sc, t1);
    } else {
      RunRowLast(s, i, fields, sc);
    }
  }

  /** The first field of a longer row and its ',': its value is added and
    * the rest of the row follows. */
  lemma RunRowHead(s: seq<char>, i: nat, fields: seq<seq<char>>, sc: Scan, t1: Scan)
    requires |fields| > 1 && sc.state == NewRec && RowAt(s, i, fields)
    requires t1 == Scan(NewRec, fields[0], sc.sum + V01Atoif.AtoifOf(fields[0]), sc.row, sc.col + 1)
    ensures Run(s, i, sc) == Run(s, i + |fields[0]| + 1, t1)
    ensures RowAt(s, i + |fields[0]| + 1, fields[1..])
  {
    FieldThenSeparator(s, i, fields[0], ',', sc);
  }

  /** A row of one field: its value is added and the line ends. */
  lemma RunRowLast(s: seq<char>, i: nat, fields: seq<seq<char>>, sc: Scan)
    requires |fields| == 1 && sc.state == NewRec && RowAt(s, i, fields)
    ensures Run(s, i, sc)
         == Run(s, RowEnd(i, fields), Scan(NewRec, fields[0], sc.sum + SumOf(fields), sc.row + 1, 0))
  {
    var f := fields[0];
    FieldThenSeparator(s, i, f, '\n', sc);
    assert SumOf(fields) == V01Atoif.AtoifOf(f) by {
      assert SumOf(fields[1..]) == 0;
    }
    assert RowEnd(i, fields) == i + |f| + 1;
  }

  /** The first field of a row followed by the run over the other fields. */
  lemma RunRowJoin(s: seq<char>, i: nat, fields: seq<seq<char>>, sc: Scan, t1: Scan)
    requires |fields| > 1
    requires t1 == Scan(NewRec, fields[0], sc.sum + V01Atoif.AtoifOf(fields[0]), sc.row, sc.col + 1)
    requires Run(s, i, sc) == Run(s, i + |fields[0]| + 1, t1)
    requires Run(s, i + |fields[0]| + 1, t1)
             == Run(s, RowEnd(i + |fields[0]| + 1, fields[1..]),
                    Scan(NewRec, fields[1..][|fields[1..]| - 1], t1.sum + SumOf(fields[1..]), t1.row + 1, 0))
    ensures Run(s, i, sc)
         == Run(s, RowEnd(i, fields), Scan(NewRec, fields[|fields| - 1], sc.sum + SumOf(fields), sc.row + 1, 0))
  {
    assert fields[1..][|fields[1..]| - 1] == fields[|fields| - 1];
    assert RowEnd(i, fields) == RowEnd(i + |fields[0]| + 1, fields[1..]);
    assert t1.sum + SumOf(fields[1..]) == sc.sum + SumOf(fields);
  }

  /** Inside quotes every byte but a quote is collected, '\n' and ','
    * included. */
  lemma {:induction false} RunQuotedBody(s: seq<char>, i: nat, k: nat, sc: Scan)
    requires sc.state == InRecQ && i <= k <= |s|
    requires forall p :: i <= p < k ==> s[p] != '"'
    ensures Run(s, i, sc) == Run(s, k, sc.(field := sc.field + s[i..k]))
    decreases k - i
  {
    if i < k {
      var sc1 := sc.(field := sc.field + [s[i]]);
      assert Run(s, i, sc) == Run(s, i + 1, sc1);
      RunQuotedBody(s, i + 1, k, sc1);
      assert sc1.field + s[i + 1..k] == sc.field + s[i..k];
    } else {
      assert sc.field + s[i..k] == sc.field;
    }
  }

  /** A quoted field from a record start: the first quote after the
    * opening one closes it, and the value of the bytes between is added. */
  lemma RunQuotedField(s: seq<char>, i: nat, f: seq<char>, sc: Scan)
    requires sc.state == NewRec && i + 1 + |f| < |s| && s[i] == '"' && s[i + 1..i + 1 + |f|] == f && s[i + 1 + |f|] == '"'
    requires forall p :: 0 <= p < |f| ==> f[p] != '"'
    ensures Run(s, i, sc) == Run(s, i + 2 + |f|, Scan(EndRec, f, sc.sum + V01Atoif.AtoifOf(f), sc.row, sc.col + 1))
  {
    var sc1 := sc.(field := [], state := InRecQ);
    forall p | i + 1 <= p < i + 1 + |f|
      ensures s[p] != '"'
    {
      assert s[p] == f[p - i - 1];
    }
    var e := i + 1 + |f|;
    RunAdvance(s, i, sc, '"');
    assert Step(sc, '"') == sc1;
    RunQuotedBody(s, i + 1, e, sc1);
    assert sc1.field + s[i + 1..e] == f;
    RunAdvance(s, e, sc1.(field := f), '"');
  }

  /** Between records, line breaks are skipped: blank lines add nothing. */
  lemma {:induction false} RunSkipsBreaks(s: seq<char>, i: nat, k: nat, sc: Scan)
    requires sc.state == NewRec && i <= k <= |s|
    requires forall p :: i <= p < k ==> s[p] == '\n' || s[p] == '\r'
    ensures Run(s, i, sc) == Run(s, k, sc)
    decreases k - i
  {
    if i < k {
      RunSkipsBreaks(s, i + 1, k, sc);
    }
  }

  /** An unquoted field that the input ends in, with no ',' or '\n' after
    * it, is never added to the sum. */
  lemma RunUnterminatedField(s: seq<char>, i: nat, sc: Scan)
    requires sc.state == InRec && i <= |s|
    requires forall p :: i <= p < |s| ==> s[p] != ',' && s[p] != '\n'
    ensures Run(s, i, sc) == sc.(field := sc.field + s[i..])
  {
    RunPlainField(s, i, |s|, sc);
    assert s[i..|s|] == s[i..];
  }
}
