/**
 * File sniffing of src/file.cpp.  The file is its byte content; opening it
 * is reduced to a flag `canOpen` saying whether the open succeeds.
 */
module SrcFile {
  import opened Text

  /** The UTF-8 byte order mark EF BB BF (section 6 of RFC 3629). */
  const Bom: seq<char> := [239 as char, 187 as char, 191 as char]

  predicate IsBreak(c: char) { c == '\n' || c == '\r' }

  /** Index of the first '\n' or '\r' at or after `i`, or the file length. */
  function FirstBreak(f: seq<char>, i: nat): (k: nat)
    requires i <= |f|
    ensures i <= k <= |f|
    decreases |f| - i
  {
    if i == |f| || IsBreak(f[i]) then i else FirstBreak(f, i + 1)
  }

  /** The line-break convention codes of determine_linebreak. */
  const NoBreak := 0
  const Unix := 1
  const Dos := 2
  const Mac := 3

  /** Reference semantics of determine_linebreak: classify the first break
    * byte and, for '\r', the byte after it. */
  function LinebreakOf(f: seq<char>): int {
    var k := FirstBreak(f, 0);
    if k == |f| then NoBreak
    else if f[k] == '\n' then Unix
    else if k + 1 < |f| && f[k + 1] == '\n' then Dos
    else Mac
  }

  /** determine_linebreak reads byte by byte with `file.get(c)` until the
    * first break. */
  method DetermineLinebreak(f: seq<char>) returns (r: int)
    ensures r == LinebreakOf(f)
  {
    var pos := 0;
    while pos < |f|
      invariant pos <= |f| && FirstBreak(f, pos) == FirstBreak(f, 0)
    {
      var c := f[pos];
      pos := pos + 1;
      if c == '\n' {
        return Unix;
      }
      if c == '\r' {
        if pos < |f| {
          c := f[pos];
          pos := pos + 1;
          if c == '\n' {
            return Dos;
          }
        }
        return Mac;
      }
    }
    return NoBreak;
  }

  /** Every byte before index `k` is not a break. */
  lemma {:induction false} FirstBreakAfter(f: seq<char>, x: seq<char>, y: seq<char>, i: nat)
    requires f == x + y && i <= |x|
    requires forall j :: i <= j < |x| ==> !IsBreak(x[j])
    ensures FirstBreak(f, i) == |x| + FirstBreak(y, 0)
    decreases |x| - i
  {
    if i < |x| {
      assert f[i] == x[i];
      FirstBreakAfter(f, x, y, i + 1);
    } else {
      FirstBreakShift(x, y, 0);
    }
  }

  lemma {:induction false} FirstBreakShift(x: seq<char>, y: seq<char>, i: nat)
    requires i <= |y|
    ensures FirstBreak(x + y, |x| + i) == |x| + FirstBreak(y, i)
    decreases |y| - i
  {
    if i < |y| {
      assert (x + y)[|x| + i] == y[i];
      FirstBreakShift(x, y, i + 1);
    }
  }

  /** There is no break at all iff the code is 0. */
  lemma {:induction false} LinebreakNone(f: seq<char>)
    ensures LinebreakOf(f) == NoBreak <==> forall j :: 0 <= j < |f| ==> !IsBreak(f[j])
  {
    if forall j :: 0 <= j < |f| ==> !IsBreak(f[j]) {
      var e: seq<char> := [];
      assert f == f + e;
      FirstBreakAfter(f, f, e, 0);
    } else {
      FirstBreakFound(f, 0);
    }
  }

  /** When some break exists, `FirstBreak` lands on one. */
  lemma {:induction false} FirstBreakFound(f: seq<char>, i: nat)
    requires i <= |f| && exists j :: i <= j < |f| && IsBreak(f[j])
    ensures FirstBreak(f, i) < |f| && IsBreak(f[FirstBreak(f, i)])
    decreases |f| - i
  {
    if !IsBreak(f[i]) {
      var j :| i <= j < |f| && IsBreak(f[j]);
      assert j != i;
      FirstBreakFound(f, i + 1);
    }
  }

  /** An `x` without breaks followed by `b` and then `y`. */
  lemma FirstBreakAt(f: seq<char>, x: seq<char>, b: char, y: seq<char>)
    requires f == x + ([b] + y) && IsBreak(b)
    requires forall j :: 0 <= j < |x| ==> !IsBreak(x[j])
    ensures FirstBreak(f, 0) == |x| && f[|x|] == b && f[|x| + 1..] == y
  {
    FirstBreakAfter(f, x, [b] + y, 0);
    assert ([b] + y)[0] == b;
    assert f[|x| + 1..] == ([b] + y)[1..];
  }

  /** The first break is a lone '\n': Unix. */
  lemma LinebreakUnix(f: seq<char>, x: seq<char>, y: seq<char>)
    requires f == x + (['\n'] + y)
    requires forall j :: 0 <= j < |x| ==> !IsBreak(x[j])
    ensures LinebreakOf(f) == Unix
  {
    FirstBreakAt(f, x, '\n', y);
  }

  /** The first break is "\r\n": DOS. */
  lemma LinebreakDos(f: seq<char>, x: seq<char>, y: seq<char>)
    requires f == x + (['\r'] + (['\n'] + y))
    requires forall j :: 0 <= j < |x| ==> !IsBreak(x[j])
    ensures LinebreakOf(f) == Dos
  {
    FirstBreakAt(f, x, '\r', ['\n'] + y);
    assert f[|x| + 1] == (['\n'] + y)[0];
  }

  /** The first break is a '\r' followed by another byte or by the end of
    * the file: Mac. */
  lemma LinebreakMac(f: seq<char>, x: seq<char>, y: seq<char>)
    requires f == x + (['\r'] + y) && (|y| == 0 || y[0] != '\n')
    requires forall j :: 0 <= j < |x| ==> !IsBreak(x[j])
    ensures LinebreakOf(f) == Mac
  {
    FirstBreakAt(f, x, '\r', y);
    if |y| > 0 {
      assert f[|x| + 1] == y[0];
    }
  }

  /** has_bom: three `stream.get(c)` calls, each compared with the next BOM
    * byte.  A `get` at the end of the file leaves `c` as it was: `c0` is
    * the indeterminate initial value of `c`. */
  method HasBom(f: seq<char>, canOpen: bool, c0: char) returns (r: Result<bool>)
    ensures !canOpen ==> r.Err?
    ensures canOpen ==> r == Ok(|f| >= 3 && f[..3] == Bom)
  {
    if !canOpen {
      return Err("Failed to open file.");
    }
    var c := c0;
    var pos := 0;
    while pos < 3
      invariant 0 <= pos <= 3
      invariant forall j :: 0 <= j < pos && j < |f| ==> f[j] == Bom[j]
      invariant pos > 0 ==> c == Bom[pos - 1]
      invariant pos >= 2 ==> pos <= |f|
    {
      if pos < |f| {
        c := f[pos];
      }
      if c != Bom[pos] {
        assert |f| >= 3 ==> f[..3][pos] == f[pos];
        return Ok(false);
      }
      pos := pos + 1;
    }
    assert f[..3] == Bom;
    return Ok(true);
  }
}
