/**
 * The templated CSV state machine of work/v05/laf2/src/csvreader.h.  The
 * machine is that of work/include/csvreader.h, but instead of dispatching
 * fields to columns it calls an event handler: `start_reading`,
 * `new_record(field)`, `end_of_line` and `finished_reading`.  The handler is
 * the template parameter; here the calls the reader makes on it are
 * recorded, in order, in `calls` (the handlers themselves are modelled in
 * their own modules and consume such a sequence).
 */
module V05CsvReader {
  import opened Text
  import opened CsvLayout
  import V05Buffer

  /** Size of the scratch array a field is collected in. */
  const TextBufferSize: nat := 1024

  datatype State = NewRec | InRec | InRecQ | EndRec

  /** Which escapes a quoted field understands: `""`, `\"`, both or none. */
  datatype QuoteType = QuoteNone | QuoteDouble | QuoteBackslash | QuoteBoth

  /** A call the reader makes on its event handler. */
  datatype HandlerCall = StartReading | NewRecord(field: seq<char>) | EndOfLine | FinishedReading

  /** The parser's state between two bytes: the machine state, the field
    * collected so far and the handler calls made. */
  datatype Scan = Scan(state: State, field: seq<char>, calls: seq<HandlerCall>)

  /** A step's new state, and whether it also consumed the byte after. */
  datatype Move = Move(scan: Scan, skip: bool)

  predicate DoublesQuotes(q: QuoteType) { q == QuoteDouble || q == QuoteBoth }
  predicate BackslashEscapes(q: QuoteType) { q == QuoteBackslash || q == QuoteBoth }

  /** state_newrec: an opening quote starts a quoted field, line breaks
    * are skipped, and any other byte (a ',' too) starts a plain field. */
  function NewRecStep(sc: Scan, c: char): Scan {
    if c == '"' then sc.(field := [], state := InRecQ)
    else if c == '\n' || c == '\r' then sc
    else sc.(field := [c], state := InRec)
  }

  /** state_inrec: ',' hands the field over, '\n' hands it over and ends
    * the line; every other byte, '\r' included, is collected. */
  function InRecStep(sc: Scan, c: char): Scan {
    if c == '\n' then sc.(calls := sc.calls + [NewRecord(sc.field), EndOfLine], state := NewRec)
    else if c == ',' then sc.(calls := sc.calls + [NewRecord(sc.field)], state := NewRec)
    else sc.(field := sc.field + [c])
  }

  /** state_inrecq: a quote ends the field unless it is an escape that the
    * quote type knows and the next byte is a quote; then one quote is
    * collected and the next byte consumed too. */
  function InRecQStep(quote: QuoteType, sc: Scan, c: char, la: char): Move {
    if c == '"' then
      if DoublesQuotes(quote) && la == '"' then Move(sc.(field := sc.field + ['"']), true)
      else Move(sc.(calls := sc.calls + [NewRecord(sc.field)], state := EndRec), false)
    else if c == '\\' && BackslashEscapes(quote) && la == '"' then Move(sc.(field := sc.field + ['"']), true)
    else Move(sc.(field := sc.field + [c]), false)
  }

  /** state_endrec: after a closing quote, a line break ends the line, a
    * ',' the field, and any other byte is ignored. */
  function EndRecStep(sc: Scan, c: char): Scan {
    if c == '\n' || c == '\r' then sc.(calls := sc.calls + [EndOfLine], state := NewRec)
    else if c == ',' then sc.(state := NewRec)
    else sc
  }

  /** One byte `c` of the main loop, dispatched on the state; `la` is the
    * byte `peek` would return after it. */
  function Step(quote: QuoteType, sc: Scan, c: char, la: char): (r: Move)
    ensures r.skip ==> la == '"' && sc.state == InRecQ
  {
    match sc.state
    case NewRec => Move(NewRecStep(sc, c), false)
    case InRec => Move(InRecStep(sc, c), false)
    case InRecQ => InRecQStep(quote, sc, c, la)
    case EndRec => Move(EndRecStep(sc, c), false)
  }

  /** The byte after position `i`, or 0 past the end. */
  function Lookahead(s: seq<char>, i: nat): char {
    if i + 1 < |s| then s[i + 1] else 0 as char
  }

  /** The main loop over the bytes `s[i..]`. */
  function Run(quote: QuoteType, s: seq<char>, i: nat, sc: Scan): Scan
    decreases |s| - i
  {
    if i >= |s| then sc
    else
      var mv := Step(quote, sc, s[i], Lookahead(s, i));
      Run(quote, s, if mv.skip then i + 2 else i + 1, mv.scan)
  }

  /** No step of the run collects a field longer than the scratch array. */
  predicate FitsFrom(quote: QuoteType, s: seq<char>, i: nat, sc: Scan)
    decreases |s| - i
  {
    if i >= |s| then true
    else
      var mv := Step(quote, sc, s[i], Lookahead(s, i));
      |mv.scan.field| <= TextBufferSize && FitsFrom(quote, s, if mv.skip then i + 2 else i + 1, mv.scan)
  }

  class CSVReader {
    const readBuffer: V05Buffer.Buffer
    /** The scratch array of the current field and its fill level. */
    const buffer: array<char>
    var bufferPos: nat
    var state: State
    var quote: QuoteType
    /** The calls made on the event handler so far. */
    var calls: seq<HandlerCall>

    ghost predicate Valid()
      reads this, buffer, readBuffer, readBuffer.buffer
    {
      && buffer.Length == TextBufferSize && bufferPos <= TextBufferSize
      && readBuffer.Valid() && buffer != readBuffer.buffer
    }

    ghost function Snapshot(): Scan
      reads this, buffer
      requires bufferPos <= buffer.Length
    {
      Scan(state, buffer[..bufferPos], calls)
    }

    /** The bytes the main loop of parse() will see. */
    ghost function Input(): seq<char>
      reads this, buffer, readBuffer, readBuffer.buffer
      requires Valid()
    {
      UntilZero(readBuffer.content, readBuffer.Consumed())
    }

    /** The byte `peek` returns now. */
    ghost function Ahead(): char
      reads this, buffer, readBuffer, readBuffer.buffer
      requires Valid()
    {
      readBuffer.ByteAt(readBuffer.Consumed())
    }

    /** The reader starts in NEWREC with quoting mode BOTH. */
    constructor (content: seq<char>)
      ensures Valid() && fresh(readBuffer) && fresh(readBuffer.buffer)
      ensures readBuffer.content == content && readBuffer.Consumed() == 0
      ensures state == NewRec && quote == QuoteBoth && calls == []
    {
      readBuffer := new V05Buffer.Buffer(content, 0);
      buffer := new char[TextBufferSize];
      bufferPos := 0;
      state := NewRec;
      quote := QuoteBoth;
      calls := [];
    }

    method SetQuoteType(q: QuoteType)
      requires Valid()
      modifies this
      ensures Valid() && quote == q && Snapshot() == old(Snapshot())
    {
      quote := q;
    }

    method QuoteTypeOf() returns (q: QuoteType)
      ensures q == quote
    {
      q := quote;
    }

    method StateNewRec(c: char)
      requires Valid() && state == NewRec
      modifies this, buffer
      ensures Valid() && quote == old(quote)
      ensures Snapshot() == NewRecStep(old(Snapshot()), c)
    {
      if c == '"' {
        bufferPos := 0;
        state := InRecQ;
      } else if c == '\n' || c == '\r' {
      } else {
        bufferPos := 0;
        buffer[bufferPos] := c;
        bufferPos := bufferPos + 1;
        state := InRec;
        assert buffer[..bufferPos] == [c];
      }
    }

    /** Collect `c` at the end of the field. */
    method Append(c: char)
      requires Valid() && bufferPos < TextBufferSize
      modifies this, buffer
      ensures Valid() && quote == old(quote)
      ensures Snapshot() == old(Snapshot()).(field := old(Snapshot()).field + [c])
    {
      buffer[bufferPos] := c;
      bufferPos := bufferPos + 1;
      assert buffer[..bufferPos] == old(buffer[..bufferPos]) + [c];
    }

    method StateInRec(c: char)
      requires Valid() && state == InRec && |InRecStep(Snapshot(), c).field| <= TextBufferSize
      modifies this, buffer
      ensures Valid() && quote == old(quote)
      ensures Snapshot() == InRecStep(old(Snapshot()), c)
    {
      if c == '\n' {
        calls := calls + [NewRecord(buffer[..bufferPos])];
        calls := calls + [EndOfLine];
        state := NewRec;
      } else if c == ',' {
        calls := calls + [NewRecord(buffer[..bufferPos])];
        state := NewRec;
      } else {
        Append(c);
      }
    }

    /** `peek`, and when it shows a quote, collect a quote and consume it:
      * the escape branches of state_inrecq. */
    method TakeEscapedQuote() returns (taken: bool)
      requires Valid() && (Ahead() == '"' ==> bufferPos < TextBufferSize)
      modifies this, buffer, readBuffer, readBuffer.buffer
      ensures Valid() && quote == old(quote)
      ensures taken == (old(Ahead()) == '"')
      ensures taken ==> (Snapshot() == old(Snapshot()).(field := old(Snapshot()).field + ['"'])
                         && readBuffer.Consumed() == old(readBuffer.Consumed()) + 1)
      ensures !taken ==> Snapshot() == old(Snapshot()) && readBuffer.Consumed() == old(readBuffer.Consumed())
    {
      var c2 := readBuffer.Peek();
      taken := c2 == '"';
      if taken {
        Append('"');
        c2 := readBuffer.Next();
      }
    }

    method StateInRecQ(c: char)
      requires Valid() && state == InRecQ
      requires |InRecQStep(quote, Snapshot(), c, Ahead()).scan.field| <= TextBufferSize
      modifies this, buffer, readBuffer, readBuffer.buffer
      ensures Valid() && quote == old(quote)
      ensures var mv := InRecQStep(quote, old(Snapshot()), c, old(Ahead()));
              mv.scan == Snapshot() && readBuffer.Consumed() == old(readBuffer.Consumed()) + (if mv.skip then 1 else 0)
    {
      if c == '"' {
        if quote == QuoteDouble || quote == QuoteBoth {
          var taken := TakeEscapedQuote();
          if taken {
            return;
          }
        }
        calls := calls + [NewRecord(buffer[..bufferPos])];
        state := EndRec;
        return;
      } else if c == '\\' && (quote == QuoteBackslash || quote == QuoteBoth) {
        var taken := TakeEscapedQuote();
        if taken {
          return;
        }
      }
      Append(c);
    }

    method StateEndRec(c: char)
      requires Valid() && state == EndRec
      modifies this
      ensures Valid() && quote == old(quote)
      ensures Snapshot() == EndRecStep(old(Snapshot()), c)
    {
      if c == '\n' || c == '\r' {
        calls := calls + [EndOfLine];
        state := NewRec;
      } else if c == ',' {
        state := NewRec;
      }
    }

    /** The `switch (state_)` of the main loop: one step on `c`. */
    method Dispatch(c: char)
      requires Valid() && |Step(quote, Snapshot(), c, Ahead()).scan.field| <= TextBufferSize
      modifies this, buffer, readBuffer, readBuffer.buffer
      ensures Valid() && quote == old(quote)
      ensures var mv := Step(quote, old(Snapshot()), c, old(Ahead()));
              mv.scan == Snapshot() && readBuffer.Consumed() == old(readBuffer.Consumed()) + (if mv.skip then 1 else 0)
    {
      match state {
        case NewRec => StateNewRec(c);
        case InRec => StateInRec(c);
        case InRecQ => StateInRecQ(c);
        case EndRec => StateEndRec(c);
      }
    }

    /** `next` on the input of the main loop: the byte at `j`, and the byte
      * after it that `peek` would give, or 0 at the end. */
    method NextInput(ghost input: seq<char>, ghost c0: nat, ghost j: nat) returns (c: char, ghost la: char)
      requires Valid() && c0 <= |readBuffer.content| && input == UntilZero(readBuffer.content, c0)
      requires j <= |input| && readBuffer.Consumed() == c0 + j
      modifies readBuffer, readBuffer.buffer
      ensures Valid()
      ensures c == 0 as char ==> j == |input|
      ensures c != 0 as char ==> (j < |input| && c == input[j] && readBuffer.Consumed() == c0 + j + 1
        && la == Ahead() && la == Lookahead(input, j))
    {
      c := readBuffer.Next();
      la := readBuffer.ByteAt(c0 + j + 1);
      UntilZeroNext(readBuffer.content, c0, j, c, la);
    }

    /** One turn of the main loop of parse(): `next`, and unless it gave 0
      * the step on that byte. */
    method Turn(ghost input: seq<char>, ghost c0: nat, ghost j: nat) returns (stop: bool, ghost j2: nat)
      requires Valid() && c0 <= |readBuffer.content| && input == UntilZero(readBuffer.content, c0)
      requires j <= |input| && readBuffer.Consumed() == c0 + j
      requires FitsFrom(quote, input, j, Snapshot())
      modifies this, buffer, readBuffer, readBuffer.buffer
      ensures Valid() && quote == old(quote)
      ensures stop ==> j == |input| && Snapshot() == old(Snapshot())
      ensures !stop ==> (j < j2 <= |input| && readBuffer.Consumed() == c0 + j2
        && Run(quote, input, j, old(Snapshot())) == Run(quote, input, j2, Snapshot())
        && FitsFrom(quote, input, j2, Snapshot()))
    {
      j2 := j;
      var c;
      ghost var la;
      c, la := NextInput(input, c0, j);
      if c == 0 as char {
        return true, j;
      }
      ghost var sc := Snapshot();
      ghost var mv := Step(quote, sc, c, la);
      j2 := if mv.skip then j + 2 else j + 1;
      RunAdvance(quote, input, j, sc, c, la, mv, j2);
      stop := false;
      Dispatch(c);
    }

    /** parse(): tell the handler reading starts, read byte by byte until
      * `next` returns 0, and tell it reading has finished.  The machine
      * state and the field are kept from any earlier parse. */
    method Parse()
      requires Valid()
      requires FitsFrom(quote, Input(), 0, Scan(state, buffer[..bufferPos], calls + [StartReading]))
      modifies this, buffer, readBuffer, readBuffer.buffer
      ensures Valid() && quote == old(quote)
      ensures var sc := Run(quote, old(Input()), 0, Scan(old(state), old(buffer[..bufferPos]), old(calls) + [StartReading]));
              Snapshot() == sc.(calls := sc.calls + [FinishedReading])
    {
      ghost var input := Input();
      ghost var c0 := readBuffer.Consumed();
      calls := calls + [StartReading];
      ghost var sc0 := Snapshot();
      ghost var j: nat := 0;
      while true
        invariant Valid() && quote == old(quote)
        invariant j <= |input| && readBuffer.Consumed() == c0 + j
        invariant Run(quote, input, 0, sc0) == Run(quote, input, j, Snapshot())
        invariant FitsFrom(quote, input, j, Snapshot())
        decreases |input| - j
      {
        var stop, j2 := Turn(input, c0, j);
        if stop {
          break;
        }
        j := j2;
      }
      calls := calls + [FinishedReading];
    }
  }

  /** One step of the run: the rest of the run, and of the bound on the
    * field, continue from the step's new state. */
  lemma RunAdvance(quote: QuoteType, s: seq<char>, i: nat, sc: Scan, c: char, la: char, mv: Move, k: nat)
    requires i < |s| && c == s[i] && la == Lookahead(s, i)
    requires mv == Step(quote, sc, c, la) && k == if mv.skip then i + 2 else i + 1
    ensures Run(quote, s, i, sc) == Run(quote, s, k, mv.scan) && k <= |s|
    ensures FitsFrom(quote, s, i, sc) ==> |mv.scan.field| <= TextBufferSize && FitsFrom(quote, s, k, mv.scan)
  {
  }

  // ---------------------------------------------------------- meaning lemmas

  /** Inside an unquoted field every byte but ',' and '\n' is collected. */
  lemma {:induction false} RunPlainField(quote: QuoteType, s: seq<char>, i: nat, k: nat, sc: Scan)
    requires sc.state == InRec && i <= k <= |s|
    requires forall p :: i <= p < k ==> s[p] != ',' && s[p] != '\n'
    ensures Run(quote, s, i, sc) == Run(quote, s, k, sc.(field := sc.field + s[i..k]))
    decreases k - i
  {
    if i < k {
      var sc1 := sc.(field := sc.field + [s[i]]);
      assert Run(quote, s, i, sc) == Run(quote, s, i + 1, sc1);
      RunPlainField(quote, s, i + 1, k, sc1);
      assert sc1.field + s[i + 1..k] == sc.field + s[i..k];
    } else {
      assert sc.field + s[i..k] == sc.field;
    }
  }

  /** A plain field and its terminator, ',' or '\n', read from a record
    * start: the handler receives the field, and for '\n' the end of the
    * line. */
  lemma FieldThenSeparator(quote: QuoteType, s: seq<char>, i: nat, f: seq<char>, sep: char, sc: Scan)
    requires sc.state == NewRec && PlainField(f) && (sep == ',' || sep == '\n')
    requires i + |f| < |s| && s[i..i + |f|] == f && s[i + |f|] == sep
    ensures Run(quote, s, i, sc)
         == Run(quote, s, i + |f| + 1,
                Scan(NewRec, f, sc.calls + (if sep == '\n' then [NewRecord(f), EndOfLine] else [NewRecord(f)])))
  {
    assert s[i] == f[0];
    var sc1 := sc.(field := [f[0]], state := InRec);
    assert Run(quote, s, i, sc) == Run(quote, s, i + 1, sc1);
    forall p | i + 1 <= p < i + |f|
      ensures s[p] != ',' && s[p] != '\n'
    {
      assert s[p] == f[p - i];
    }
    RunPlainField(quote, s, i + 1, i + |f|, sc1);
    assert [f[0]] + s[i + 1..i + |f|] == f;
  }

  /** One `new_record` call per field, in order. */
  function RecordCalls(fields: seq<seq<char>>): (r: seq<HandlerCall>)
    ensures |r| == |fields|
  {
    if |fields| == 0 then [] else [NewRecord(fields[0])] + RecordCalls(fields[1..])
  }

  lemma RecordCallsSplit(fields: seq<seq<char>>, calls: seq<HandlerCall>)
    requires |fields| > 0
    ensures (calls + [NewRecord(fields[0])]) + (RecordCalls(fields[1..]) + [EndOfLine])
         == calls + (RecordCalls(fields) + [EndOfLine])
  {
  }

  /** A row of plain fields read from a record start: the handler receives
    * every field, in order, and then the end of the line. */
  lemma {:induction false} RunRow(quote: QuoteType, s: seq<char>, i: nat, fields: seq<seq<char>>, sc: Scan)
    requires sc.state == NewRec && RowAt(s, i, fields)
    ensures Run(quote, s, i, sc)
         == Run(quote, s, RowEnd(i, fields), Scan(NewRec, fields[|fields| - 1], sc.calls + (RecordCalls(fields) + [EndOfLine])))
    decreases |fields|
  {
    var f := fields[0];
    var sep := if |fields| == 1 then '\n' else ',';
    FieldThenSeparator(quote, s, i, f, sep, sc);
    if |fields| > 1 {
      var t1 := Scan(NewRec, f, sc.calls + [NewRecord(f)]);
      RunRow(quote, s, i + |f| + 1, fields[1..], t1);
      assert fields[1..][|fields[1..]| - 1] == fields[|fields| - 1];
      RecordCallsSplit(fields, sc.calls);
    } else {
      assert RecordCalls(fields) == [NewRecord(f)];
      assert RowEnd(i, fields) == i + |f| + 1;
      assert sc.calls + [NewRecord(f), EndOfLine] == sc.calls + (RecordCalls(fields) + [EndOfLine]);
    }
  }

  /** One byte inside a quoted field: a doubled quote or any other byte
    * (not a backslash when backslash escapes are on) is collected. */
  lemma DoubledStep(quote: QuoteType, s: seq<char>, i: nat, sc: Scan, c: char, n: nat)
    requires sc.state == InRecQ && DoublesQuotes(quote) && i < |s| && c == s[i]
    requires c == '"' ==> i + 1 < |s| && s[i + 1] == '"'
    requires BackslashEscapes(quote) ==> c != '\\'
    requires n == if c == '"' then i + 2 else i + 1
    ensures Run(quote, s, i, sc) == Run(quote, s, n, sc.(field := sc.field + [c]))
  {
  }

  /** The inside of a quoted field written with doubled quotes (and, when
    * backslash escapes are on too, without backslashes) reads back as the
    * field, up to its closing quote. */
  lemma {:induction false} RunDoubledBody(quote: QuoteType, s: seq<char>, i: nat, f: seq<char>, e: nat, sc: Scan)
    requires e == i + |Doubled(f)|
    requires sc.state == InRecQ && DoublesQuotes(quote)
    requires BackslashEscapes(quote) ==> forall p :: 0 <= p < |f| ==> f[p] != '\\'
    requires e < |s| && s[i..e] == Doubled(f) && s[e] == '"'
    ensures Run(quote, s, i, sc) == Run(quote, s, e, sc.(field := sc.field + f))
    decreases |f|
  {
    if |f| == 0 {
      assert sc.field + f == sc.field;
    } else {
      var h: seq<char> := if f[0] == '"' then ['"', '"'] else [f[0]];
      var n := i + |h|;
      assert s[i] == f[0] && (f[0] == '"' ==> s[i + 1] == '"') && s[n..n + |Doubled(f[1..])|] == Doubled(f[1..])
          && n + |Doubled(f[1..])| == i + |Doubled(f)| by {
        assert Doubled(f) == h + Doubled(f[1..]);
        SliceSplit(s, i, h, Doubled(f[1..]));
        assert s[i] == s[i..n][0];
        if f[0] == '"' {
          assert s[i + 1] == s[i..n][1];
        }
      }
      var sc1 := sc.(field := sc.field + [f[0]]);
      DoubledStep(quote, s, i, sc, f[0], n);
      assert BackslashEscapes(quote) ==> forall p :: 0 <= p < |f[1..]| ==> f[1..][p] != '\\' by {
        if BackslashEscapes(quote) {
          forall p | 0 <= p < |f[1..]| ensures f[1..][p] != '\\' {
            assert f[1..][p] == f[p + 1];
          }
        }
      }
      RunDoubledBody(quote, s, n, f[1..], e, sc1);
      assert sc1.(field := sc1.field + f[1..]) == sc.(field := sc.field + f) by {
        AppendHead(sc.field, f);
      }
    }
  }

  /** A quoted field written with doubled quotes, from a record start: the
    * handler receives exactly the field, and the machine waits after the
    * closing quote. */
  lemma RunDoubledField(quote: QuoteType, s: seq<char>, i: nat, f: seq<char>, sc: Scan)
    requires sc.state == NewRec && DoublesQuotes(quote)
    requires BackslashEscapes(quote) ==> forall p :: 0 <= p < |f| ==> f[p] != '\\'
    requires i + 1 + |Doubled(f)| < |s| && s[i] == '"' && s[i + 1..i + 1 + |Doubled(f)|] == Doubled(f)
    requires s[i + 1 + |Doubled(f)|] == '"' && Lookahead(s, i + 1 + |Doubled(f)|) != '"'
    ensures Run(quote, s, i, sc) == Run(quote, s, i + 2 + |Doubled(f)|, Scan(EndRec, f, sc.calls + [NewRecord(f)]))
  {
    var sc1 := sc.(field := [], state := InRecQ);
    RunDoubledBody(quote, s, i + 1, f, i + 1 + |Doubled(f)|, sc1);
    assert sc1.(field := sc1.field + f) == sc.(field := f, state := InRecQ);
  }

  /** One byte inside a quoted field when backslash escapes are on: `\"`
    * gives a quote, any other byte but a quote is collected as it is. */
  lemma BackslashedStep(quote: QuoteType, s: seq<char>, i: nat, sc: Scan, c: char, n: nat)
    requires sc.state == InRecQ && BackslashEscapes(quote) && i < |s| && s[i] != '"'
    requires s[i] == '\\' && Lookahead(s, i) == '"' ==> c == '"' && n == i + 2
    requires !(s[i] == '\\' && Lookahead(s, i) == '"') ==> c == s[i] && n == i + 1
    ensures Run(quote, s, i, sc) == Run(quote, s, n, sc.(field := sc.field + [c]))
  {
  }

  /** The inside of a quoted field written with backslash-escaped quotes
    * reads back as the field, up to its closing quote, provided the field
    * does not end in a backslash (which would escape the closing quote). */
  lemma {:induction false} RunBackslashedBody(quote: QuoteType, s: seq<char>, i: nat, f: seq<char>, e: nat, sc: Scan)
    requires e == i + |Backslashed(f)|
    requires sc.state == InRecQ && BackslashEscapes(quote)
    requires |f| > 0 ==> f[|f| - 1] != '\\'
    requires e < |s| && s[i..e] == Backslashed(f) && s[e] == '"'
    ensures Run(quote, s, i, sc) == Run(quote, s, e, sc.(field := sc.field + f))
    decreases |f|
  {
    if |f| == 0 {
      assert sc.field + f == sc.field;
    } else {
      var h: seq<char> := if f[0] == '"' then ['\\', '"'] else [f[0]];
      var n := i + |h|;
      var t := Backslashed(f[1..]);
      assert s[i] == h[0] && (f[0] == '"' ==> s[i + 1] == '"') && s[n..n + |t|] == t
          && n + |t| == i + |Backslashed(f)| by {
        assert Backslashed(f) == h + t;
        SliceSplit(s, i, h, t);
        assert s[i] == s[i..n][0];
        if f[0] == '"' {
          assert s[i + 1] == s[i..n][1];
        }
      }
      assert f[0] == '\\' ==> Lookahead(s, i) != '"' by {
        if f[0] == '\\' {
          assert |f| > 1;
          assert s[i + 1] == t[0];
        }
      }
      var sc1 := sc.(field := sc.field + [f[0]]);
      BackslashedStep(quote, s, i, sc, f[0], n);
      assert |f[1..]| > 0 ==> f[1..][|f[1..]| - 1] != '\\' by {
        if |f[1..]| > 0 {
          assert f[1..][|f[1..]| - 1] == f[|f| - 1];
        }
      }
      RunBackslashedBody(quote, s, n, f[1..], e, sc1);
      assert sc1.(field := sc1.field + f[1..]) == sc.(field := sc.field + f) by {
        AppendHead(sc.field, f);
      }
    }
  }

  /** A quoted field written with backslash-escaped quotes, from a record
    * start: the handler receives exactly the field. */
  lemma RunBackslashedField(quote: QuoteType, s: seq<char>, i: nat, f: seq<char>, sc: Scan)
    requires sc.state == NewRec && BackslashEscapes(quote) && (|f| > 0 ==> f[|f| - 1] != '\\')
    requires i + 1 + |Backslashed(f)| < |s| && s[i] == '"' && s[i + 1..i + 1 + |Backslashed(f)|] == Backslashed(f)
    requires s[i + 1 + |Backslashed(f)|] == '"' && !(DoublesQuotes(quote) && Lookahead(s, i + 1 + |Backslashed(f)|) == '"')
    ensures Run(quote, s, i, sc) == Run(quote, s, i + 2 + |Backslashed(f)|, Scan(EndRec, f, sc.calls + [NewRecord(f)]))
  {
    var sc1 := sc.(field := [], state := InRecQ);
    RunBackslashedBody(quote, s, i + 1, f, i + 1 + |Backslashed(f)|, sc1);
    assert sc1.(field := sc1.field + f) == sc.(field := f, state := InRecQ);
  }

  /** Between records, line breaks are skipped without a handler call:
    * blank lines vanish. */
  lemma {:induction false} RunSkipsBreaks(quote: QuoteType, s: seq<char>, i: nat, k: nat, sc: Scan)
    requires sc.state == NewRec && i <= k <= |s|
    requires forall p :: i <= p < k ==> s[p] == '\n' || s[p] == '\r'
    ensures Run(quote, s, i, sc) == Run(quote, s, k, sc)
    decreases k - i
  {
    if i < k {
      RunSkipsBreaks(quote, s, i + 1, k, sc);
    }
  }

  /** After a closing quote, bytes other than a line break or ',' are
    * dropped. */
  lemma {:induction false} RunIgnoresAfterQuote(quote: QuoteType, s: seq<char>, i: nat, k: nat, sc: Scan)
    requires sc.state == EndRec && i <= k <= |s|
    requires forall p :: i <= p < k ==> s[p] != '\n' && s[p] != '\r' && s[p] != ','
    ensures Run(quote, s, i, sc) == Run(quote, s, k, sc)
    decreases k - i
  {
    if i < k {
      RunIgnoresAfterQuote(quote, s, i + 1, k, sc);
    }
  }

  /** An unquoted field that the input ends in, with no ',' or '\n' after
    * it, is never handed to the handler. */
  lemma RunUnterminatedField(quote: QuoteType, s: seq<char>, i: nat, sc: Scan)
    requires sc.state == InRec && i <= |s|
    requires forall p :: i <= p < |s| ==> s[p] != ',' && s[p] != '\n'
    ensures Run(quote, s, i, sc) == sc.(field := sc.field + s[i..])
  {
    RunPlainField(quote, s, i, |s|, sc);
    assert s[i..|s|] == s[i..];
  }

  /** Between `start_reading` and `finished_reading` the handler only
    * receives `new_record` and `end_of_line`. */
  predicate InnerCalls(calls: seq<HandlerCall>) {
    forall k :: 0 <= k < |calls| ==> calls[k].NewRecord? || calls[k] == EndOfLine
  }

  lemma StepAppendsInnerCalls(quote: QuoteType, sc: Scan, c: char, la: char)
    ensures var t := Step(quote, sc, c, la).scan;
            && |sc.calls| <= |t.calls| && t.calls == sc.calls + t.calls[|sc.calls|..]
            && InnerCalls(t.calls[|sc.calls|..])
  {
  }

  /** A run only appends `new_record` and `end_of_line` calls. */
  lemma {:induction false} RunAppendsInnerCalls(quote: QuoteType, s: seq<char>, i: nat, sc: Scan)
    ensures var t := Run(quote, s, i, sc);
            && |sc.calls| <= |t.calls| && t.calls[..|sc.calls|] == sc.calls
            && InnerCalls(t.calls[|sc.calls|..])
    decreases |s| - i
  {
    if i < |s| {
      var mv := Step(quote, sc, s[i], Lookahead(s, i));
      var d := mv.scan.calls[|sc.calls|..];
      StepAppendsInnerCalls(quote, sc, s[i], Lookahead(s, i));
      RunAppendsInnerCalls(quote, s, if mv.skip then i + 2 else i + 1, mv.scan);
      var t := Run(quote, s, i, sc);
      var e := t.calls[|mv.scan.calls|..];
      assert t.calls == mv.scan.calls + e;
      assert t.calls[..|sc.calls|] == sc.calls;
      assert t.calls[|sc.calls|..] == d + e;
    } else {
      assert sc.calls[..|sc.calls|] == sc.calls;
    }
  }

  /** The calls of a whole parse: `start_reading` first, `finished_reading`
    * last, and only `new_record` / `end_of_line` in between. */
  lemma ParseCallOrder(quote: QuoteType, s: seq<char>, state: State, field: seq<char>, before: seq<HandlerCall>)
    ensures var sc := Run(quote, s, 0, Scan(state, field, before + [StartReading]));
            var calls := sc.calls + [FinishedReading];
            && |calls| >= |before| + 2 && calls[..|before|] == before
            && calls[|before|] == StartReading && calls[|calls| - 1] == FinishedReading
            && InnerCalls(calls[|before| + 1..|calls| - 1])
  {
    var sc0 := Scan(state, field, before + [StartReading]);
    RunAppendsInnerCalls(quote, s, 0, sc0);
    var t := Run(quote, s, 0, sc0);
    var calls := t.calls + [FinishedReading];
    assert calls[..|before|] == t.calls[..|sc0.calls|][..|before|];
    assert calls[|before|] == t.calls[..|sc0.calls|][|before|];
    assert calls[|before| + 1..|calls| - 1] == t.calls[|sc0.calls|..];
  }
}
