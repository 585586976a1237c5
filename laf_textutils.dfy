/**
 * The byte logic of LaF/src/textutils.cpp: counting lines (`nlines`) and
 * extracting lines by number (`get_line`, `get_lines`).  The file is its
 * byte content `f`; each function reads it in blocks of `BlockSize` bytes
 * (`input.read` followed by `gcount`), and a block shorter than that sets
 * end-of-file.  The per-byte state of each scan is a datatype, and the
 * reference semantics of a scan is the fold of its step over the bytes, so
 * that the block loops are proved to compute the fold of the whole file.
 */
module LaFTextutils {
  import opened Text

  const BlockSize: nat := 1000000

  function Min(a: nat, b: nat): nat { if a <= b then a else b }

  // ------------------------------------------------------------ lines

  /** How a prefix of a file splits into complete lines (each ended by a
    * '\n', which is not part of it) and the unfinished tail after the last
    * '\n'. */
  datatype Split = Split(lines: seq<seq<char>>, tail: seq<char>)

  function SplitOf(p: seq<char>): (r: Split)
    ensures |r.lines| == CountChar(p, '\n')
  {
    if |p| == 0 then Split([], [])
    else
      var r := SplitOf(p[..|p| - 1]);
      if p[|p| - 1] == '\n' then Split(r.lines + [r.tail], []) else Split(r.lines, r.tail + [p[|p| - 1]])
  }

  /** The complete lines of `p`. */
  function Lines(p: seq<char>): seq<seq<char>> { SplitOf(p).lines }

  predicate NoNewline(s: seq<char>) { forall i :: 0 <= i < |s| ==> s[i] != '\n' }

  /** No line and no tail contains a '\n'. */
  lemma {:induction false} SplitHasNoNewline(p: seq<char>)
    ensures NoNewline(SplitOf(p).tail)
    ensures forall k :: 0 <= k < |SplitOf(p).lines| ==> NoNewline(SplitOf(p).lines[k])
  {
    if |p| > 0 {
      SplitHasNoNewline(p[..|p| - 1]);
    }
  }

  /** A line is complete once its '\n' has been read: reading more bytes
    * only appends lines. */
  lemma {:induction false} LinesGrow(p: seq<char>, q: seq<char>)
    ensures |Lines(p)| <= |Lines(p + q)| && Lines(p) == Lines(p + q)[..|Lines(p)|]
    decreases |q|
  {
    if |q| == 0 {
      assert p + q == p;
    } else {
      var q' := q[..|q| - 1];
      assert (p + q)[..|p + q| - 1] == p + q';
      LinesGrow(p, q');
    }
  }

  // ------------------------------------------------------------ nlines

  /** nlines: the number of '\n' bytes, plus one for a last line that does
    * not end in '\n'. */
  method NLines(f: seq<char>) returns (n: nat)
    ensures n == CountChar(f, '\n') + (if |f| > 0 && f[|f| - 1] != '\n' then 1 else 0)
  {
    n := 0;
    var incompleteLine := false;
    var pos := 0;
    var eof := false;
    while !eof
      invariant pos <= |f|
      invariant n == CountChar(f[..pos], '\n')
      invariant incompleteLine == (pos > 0 && f[pos - 1] != '\n')
      invariant eof ==> pos == |f|
      decreases |f| - pos, if eof then 0 else 1
    {
      var nread := Min(BlockSize, |f| - pos);
      if nread == 0 {
        break;
      }
      var i := 0;
      while i < nread
        invariant i <= nread
        invariant n == CountChar(f[..pos + i], '\n')
        invariant incompleteLine == (pos + i > 0 && f[pos + i - 1] != '\n')
      {
        var b := f[pos + i];
        CountCharPrefix(f, pos + i, '\n', b);
        if b == '\n' {
          incompleteLine := false;
          n := n + 1;
        } else {
          incompleteLine := true;
        }
        i := i + 1;
      }
      pos := pos + nread;
      eof := nread < BlockSize;
    }
    assert f[..pos] == f;
    if incompleteLine {
      n := n + 1;
    }
  }

  /** The count of nlines is the number of lines, complete or not. */
  lemma NLinesCountsLines(f: seq<char>)
    ensures CountChar(f, '\n') + (if |f| > 0 && f[|f| - 1] != '\n' then 1 else 0)
         == |Lines(f)| + (if SplitOf(f).tail == [] then 0 else 1)
  {
    if |f| > 0 && f[|f| - 1] != '\n' {
      assert SplitOf(f).tail == SplitOf(f[..|f| - 1]).tail + [f[|f| - 1]];
    }
  }

  // ------------------------------------------------------------ get_line

  /** The state of get_line after some bytes: the line counter `n`, the
    * position `index` in the requested numbers, the bytes collected for
    * the requested line, the lines returned so far and the stop flag. */
  datatype LineScan = LineScan(n: int, index: nat, current: seq<char>, result: seq<seq<char>>, stop: bool)

  /** One byte of get_line.  At a '\n' ending the requested line, the line
    * is returned and the next number becomes current; after the last one
    * the scan stops. */
  function LineStep(numbers: seq<int>, st: LineScan, c: char): LineScan {
    if st.stop || st.index >= |numbers| then st
    else if c == '\n' then
      if st.n == numbers[st.index] then
        if st.index + 1 >= |numbers| then LineScan(st.n, st.index + 1, st.current, st.result + [st.current], true)
        else LineScan(st.n + 1, st.index + 1, [], st.result + [st.current], false)
      else st.(n := st.n + 1)
    else if st.n == numbers[st.index] then st.(current := st.current + [c])
    else st
  }

  /** Reference semantics of get_line: the fold of `LineStep`. */
  function LineScanOf(numbers: seq<int>, p: seq<char>): LineScan {
    if |p| == 0 then LineScan(0, 0, [], [], false)
    else LineStep(numbers, LineScanOf(numbers, p[..|p| - 1]), p[|p| - 1])
  }

  lemma LineScanOfExtend(numbers: seq<int>, f: seq<char>, k: nat)
    requires k < |f|
    ensures LineScanOf(numbers, f[..k + 1]) == LineStep(numbers, LineScanOf(numbers, f[..k]), f[k])
  {
    assert f[..k + 1][..k] == f[..k];
  }

  /** Once stopped, get_line ignores the rest of the file. */
  lemma {:induction false} LineScanStopped(numbers: seq<int>, p: seq<char>, q: seq<char>)
    requires LineScanOf(numbers, p).stop
    ensures LineScanOf(numbers, p + q) == LineScanOf(numbers, p)
    decreases |q|
  {
    if |q| == 0 {
      assert p + q == p;
    } else {
      assert (p + q)[..|p + q| - 1] == p + q[..|q| - 1];
      LineScanStopped(numbers, p, q[..|q| - 1]);
    }
  }

  /** get_line: the file in blocks until the last requested line has been
    * returned. */
  method GetLine(f: seq<char>, numbers: seq<int>) returns (result: seq<seq<char>>)
    requires |numbers| > 0
    ensures result == LineScanOf(numbers, f).result
  {
    var n: int := 0;
    var lineIndex: nat := 0;
    var lineNumber := numbers[lineIndex];
    result := [];
    var currentLine := [];
    var stop := false;
    var pos := 0;
    var eof := false;
    while !stop && !eof
      invariant pos <= |f|
      invariant LineScanOf(numbers, f[..pos]) == LineScan(n, lineIndex, currentLine, result, stop)
      invariant !stop ==> lineIndex < |numbers| && lineNumber == numbers[lineIndex]
      invariant eof && !stop ==> pos == |f|
      decreases |f| - pos, if stop || eof then 0 else 1
    {
      var nread := Min(BlockSize, |f| - pos);
      if nread == 0 {
        break;
      }
      var used;
      n, lineIndex, lineNumber, currentLine, result, stop, used :=
        GetLineBlock(f, numbers, pos, nread, n, lineIndex, lineNumber, currentLine, result);
      pos := pos + used;
      eof := nread < BlockSize;
    }
    if stop {
      LineScanStopped(numbers, f[..pos], f[pos..]);
    }
    assert f[..pos] + f[pos..] == f;
    if !stop {
      assert f[..pos] == f;
    }
  }

  /** The byte loop of get_line over one block `f[pos..pos + nread]`; `used`
    * is the number of bytes consumed before the scan stopped. */
  method GetLineBlock(f: seq<char>, numbers: seq<int>, pos: nat, nread: nat,
                      n0: int, lineIndex0: nat, lineNumber0: int, currentLine0: seq<char>, result0: seq<seq<char>>)
    returns (n: int, lineIndex: nat, lineNumber: int, currentLine: seq<char>, result: seq<seq<char>>, stop: bool, used: nat)
    requires 0 < nread && pos + nread <= |f|
    requires LineScanOf(numbers, f[..pos]) == LineScan(n0, lineIndex0, currentLine0, result0, false)
    requires lineIndex0 < |numbers| && lineNumber0 == numbers[lineIndex0]
    ensures 0 < used <= nread && (!stop ==> used == nread)
    ensures LineScanOf(numbers, f[..pos + used]) == LineScan(n, lineIndex, currentLine, result, stop)
    ensures !stop ==> lineIndex < |numbers| && lineNumber == numbers[lineIndex]
  {
    n, lineIndex, lineNumber, currentLine, result, stop := n0, lineIndex0, lineNumber0, currentLine0, result0, false;
    var i := 0;
    while i < nread
      invariant i <= nread
      invariant LineScanOf(numbers, f[..pos + i]) == LineScan(n, lineIndex, currentLine, result, false)
      invariant lineIndex < |numbers| && lineNumber == numbers[lineIndex]
    {
      LineScanOfExtend(numbers, f, pos + i);
      n, lineIndex, lineNumber, currentLine, result, stop := LineByte(numbers, f[pos + i], n, lineIndex, lineNumber, currentLine, result);
      if stop {
        return n, lineIndex, lineNumber, currentLine, result, stop, i + 1;
      }
      i := i + 1;
    }
    used := nread;
  }

  /** The body of get_line's inner loop on the byte `c`; `stop` when the
    * last requested line was returned. */
  method LineByte(numbers: seq<int>, c: char, n: int, lineIndex: nat, lineNumber: int, currentLine: seq<char>, result: seq<seq<char>>)
    returns (n': int, lineIndex': nat, lineNumber': int, currentLine': seq<char>, result': seq<seq<char>>, stop: bool)
    requires lineIndex < |numbers| && lineNumber == numbers[lineIndex]
    ensures LineScan(n', lineIndex', currentLine', result', stop) == LineStep(numbers, LineScan(n, lineIndex, currentLine, result, false), c)
    ensures !stop ==> lineIndex' < |numbers| && lineNumber' == numbers[lineIndex']
  {
    n', lineIndex', lineNumber', currentLine', result', stop := n, lineIndex, lineNumber, currentLine, result, false;
    if c == '\n' {
      if n' == lineNumber' {
        result' := result' + [currentLine'];
        lineIndex' := lineIndex' + 1;
        if lineIndex' >= |numbers| {
          stop := true;
          return;
        }
        lineNumber' := numbers[lineIndex'];
        currentLine' := [];
      }
      n' := n' + 1;
    } else {
      if n' == lineNumber' {
        currentLine' := currentLine' + [c];
      }
    }
  }

  predicate StrictlyIncreasing(numbers: seq<int>) {
    forall i, j :: 0 <= i < j < |numbers| ==> numbers[i] < numbers[j]
  }

  /** What get_line has returned after the prefix `p`, for increasing line
    * numbers: the requested lines, complete in `p`, in order. */
  ghost predicate ServesLines(numbers: seq<int>, p: seq<char>, st: LineScan) {
    var lines := Lines(p);
    && |st.result| == st.index <= |numbers|
    && (forall i :: 0 <= i < st.index ==> 0 <= numbers[i] < |lines| && st.result[i] == lines[numbers[i]])
    && (st.stop ==> st.index == |numbers|)
    && (!st.stop ==> st.index < |numbers| && st.n == |lines| && st.n <= numbers[st.index]
                     && st.current == (if st.n == numbers[st.index] then SplitOf(p).tail else []))
  }

  lemma {:induction false} LineStepServes(numbers: seq<int>, p: seq<char>, c: char)
    requires StrictlyIncreasing(numbers) && ServesLines(numbers, p, LineScanOf(numbers, p))
    ensures ServesLines(numbers, p + [c], LineStep(numbers, LineScanOf(numbers, p), c))
  {
    var st := LineScanOf(numbers, p);
    var q := p + [c];
    assert q[..|q| - 1] == p;
    LinesGrow(p, [c]);
    var lines := Lines(p);
    var lines' := Lines(q);
    var st' := LineStep(numbers, st, c);
    forall i | 0 <= i < st.index
      ensures 0 <= numbers[i] < |lines'| && st'.result[i] == lines'[numbers[i]]
    {
      assert lines'[numbers[i]] == lines[numbers[i]];
    }
    if !st.stop && c == '\n' && st.n == numbers[st.index] {
      assert lines' == lines + [SplitOf(p).tail];
      assert st'.result[st.index] == lines'[numbers[st.index]];
      if st.index + 1 < |numbers| {
        assert numbers[st.index] < numbers[st.index + 1];
      }
    }
  }

  lemma {:induction false} LineScanServes(numbers: seq<int>, p: seq<char>)
    requires StrictlyIncreasing(numbers) && |numbers| > 0 && numbers[0] >= 0
    ensures ServesLines(numbers, p, LineScanOf(numbers, p))
  {
    if |p| > 0 {
      var p' := p[..|p| - 1];
      LineScanServes(numbers, p');
      assert p' + [p[|p| - 1]] == p;
      LineStepServes(numbers, p', p[|p| - 1]);
    }
  }

  /** For strictly increasing, non-negative line numbers, get_line returns
    * the requested lines of the file in order, each without its '\n'; it
    * stops at the first requested line the file does not end with a '\n'. */
  lemma GetLineReturnsRequestedLines(numbers: seq<int>, f: seq<char>)
    requires StrictlyIncreasing(numbers) && |numbers| > 0 && numbers[0] >= 0
    ensures var r := LineScanOf(numbers, f).result;
            && |r| <= |numbers|
            && (forall i :: 0 <= i < |r| ==> 0 <= numbers[i] < |Lines(f)| && r[i] == Lines(f)[numbers[i]])
            && (|r| < |numbers| ==> numbers[|r|] >= |Lines(f)|)
  {
    LineScanServes(numbers, f);
  }

  /** Whatever the numbers, get_line returns at most one line per number
    * and no returned line contains a '\n'. */
  lemma {:induction false} GetLineShape(numbers: seq<int>, p: seq<char>)
    ensures var st := LineScanOf(numbers, p);
            && |st.result| == st.index <= |numbers| && NoNewline(st.current)
            && forall k :: 0 <= k < |st.result| ==> NoNewline(st.result[k])
  {
    if |p| > 0 {
      GetLineShape(numbers, p[..|p| - 1]);
    }
  }

  // ------------------------------------------------------------ get_lines

  /** The state of get_lines: line counter, position in the numbers, the
    * bytes collected and the lines returned. */
  datatype LinesScan = LinesScan(n: nat, index: nat, current: seq<char>, result: seq<seq<char>>)

  /** One byte of get_lines.  At a '\n' a non-empty collected line is
    * returned and the next number becomes current, staying at the last one
    * once all are used; an empty one is not returned and does not advance
    * the index. */
  function LinesStep(numbers: seq<nat>, st: LinesScan, c: char): LinesScan {
    if st.index >= |numbers| then st
    else if c == '\n' then
      if st.current != [] then
        var k := if st.index + 1 >= |numbers| then st.index else st.index + 1;
        LinesScan(st.n + 1, k, [], st.result + [st.current])
      else st.(n := st.n + 1)
    else if st.n == numbers[st.index] then st.(current := st.current + [c])
    else st
  }

  function LinesScanOf(numbers: seq<nat>, p: seq<char>): LinesScan {
    if |p| == 0 then LinesScan(0, 0, [], [])
    else LinesStep(numbers, LinesScanOf(numbers, p[..|p| - 1]), p[|p| - 1])
  }

  lemma LinesScanOfExtend(numbers: seq<nat>, f: seq<char>, k: nat)
    requires k < |f|
    ensures LinesScanOf(numbers, f[..k + 1]) == LinesStep(numbers, LinesScanOf(numbers, f[..k]), f[k])
  {
    assert f[..k + 1][..k] == f[..k];
  }

  /** The body of get_lines' inner loop on the byte `c`. */
  method LinesByte(numbers: seq<nat>, c: char, n: nat, currentI: nat, currentN: nat, currentLine: seq<char>, lines: seq<seq<char>>)
    returns (n': nat, currentI': nat, currentN': nat, currentLine': seq<char>, lines': seq<seq<char>>)
    requires currentI < |numbers| && currentN == numbers[currentI]
    ensures LinesScan(n', currentI', currentLine', lines') == LinesStep(numbers, LinesScan(n, currentI, currentLine, lines), c)
    ensures currentI' < |numbers| && currentN' == numbers[currentI']
  {
    n', currentI', currentN', currentLine', lines' := n, currentI, currentN, currentLine, lines;
    if c == '\n' {
      if currentLine' != [] {
        lines' := lines' + [currentLine'];
        currentI' := currentI' + 1;
        if currentI' >= |numbers| {
          currentI' := currentI' - 1;
        }
        currentN' := numbers[currentI'];
        currentLine' := [];
      }
      n' := n' + 1;
    } else {
      if n' == currentN' {
        currentLine' := currentLine' + [c];
      }
    }
  }

  /** get_lines: the file in blocks, each block byte by byte. */
  method GetLines(f: seq<char>, numbers: seq<nat>) returns (lines: seq<seq<char>>)
    requires |numbers| > 0
    ensures lines == LinesScanOf(numbers, f).result
  {
    lines := [];
    var n: nat := 0;
    var currentI: nat := 0;
    var currentN: nat := numbers[currentI];
    var currentLine: seq<char> := [];
    var pos := 0;
    var eof := false;
    while !eof
      invariant pos <= |f|
      invariant LinesScanOf(numbers, f[..pos]) == LinesScan(n, currentI, currentLine, lines)
      invariant currentI < |numbers| && currentN == numbers[currentI]
      invariant eof ==> pos == |f|
      decreases |f| - pos, if eof then 0 else 1
    {
      var nread := Min(BlockSize, |f| - pos);
      if nread == 0 {
        break;
      }
      var i := 0;
      while i < nread
        invariant i <= nread
        invariant LinesScanOf(numbers, f[..pos + i]) == LinesScan(n, currentI, currentLine, lines)
        invariant currentI < |numbers| && currentN == numbers[currentI]
      {
        LinesScanOfExtend(numbers, f, pos + i);
        n, currentI, currentN, currentLine, lines := LinesByte(numbers, f[pos + i], n, currentI, currentN, currentLine, lines);
        i := i + 1;
      }
      pos := pos + nread;
      eof := nread < BlockSize;
    }
    assert f[..pos] == f;
  }

  /** get_lines never returns an empty line and no line has a '\n'; its
    * index counts the lines returned, and stops at the last requested
    * number. */
  lemma {:induction false} GetLinesShape(numbers: seq<nat>, p: seq<char>)
    requires |numbers| > 0
    ensures var st := LinesScanOf(numbers, p);
            && st.index == (if |st.result| < |numbers| - 1 then |st.result| else |numbers| - 1)
            && NoNewline(st.current)
            && forall k :: 0 <= k < |st.result| ==> st.result[k] != [] && NoNewline(st.result[k])
  {
    if |p| > 0 {
      GetLinesShape(numbers, p[..|p| - 1]);
    }
  }
}
