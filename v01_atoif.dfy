/**
 * The first-generation `atoif(str, len)` of work/v01/atoif.h: skip leading
 * spaces, then accumulate the digit run that follows; the first space or
 * non-digit ends the scan and whatever follows is ignored.  There is no
 * sign and no error report.
 */
module V01Atoif {
  import opened Text

  /** Reference semantics: the decimal value of the digit run right after
    * the leading spaces (zero when that run is empty). */
  function AtoifOf(s: seq<char>): int {
    var start := SkipSpaces(s, 0);
    DecimalValue(s[start..SkipDigits(s, start)])
  }

  method Atoif(s: seq<char>) returns (value: int)
    ensures value == AtoifOf(s)
  {
    var i := 0;
    while i < |s| && s[i] == ' '
      invariant i <= |s| && SkipSpaces(s, i) == SkipSpaces(s, 0)
    {
      i := i + 1;
    }
    var start := i;
    value := 0;
    while i < |s| && s[i] != ' '
      invariant start <= i <= |s| && SkipDigits(s, i) == SkipDigits(s, start)
      invariant value == DecimalValue(s[start..i])
    {
      if IsDigit(s[i]) {
        DecimalValueExtend(s, start, i);
        value := value * 10 + DigitValue(s[i]);
      } else {
        break;
      }
      i := i + 1;
    }
  }

  /** The value never is negative and has no more digits than the run. */
  lemma AtoifBounds(s: seq<char>)
    ensures 0 <= AtoifOf(s) < Pow10(SkipDigits(s, SkipSpaces(s, 0)) - SkipSpaces(s, 0))
  {
    var start := SkipSpaces(s, 0);
    SkipDigitsAreDigits(s, start);
    DecimalValueBound(s[start..SkipDigits(s, start)]);
  }

  /** Spaces, a non-empty digit run and then anything that does not start
    * with a digit: the result is the value of the run, whatever follows. */
  lemma AtoifReadsDigits(s: seq<char>, a: nat, d: seq<char>, rest: seq<char>)
    requires s == Spaces(a) + (d + rest)
    requires |d| > 0 && AllDigits(d) && (|rest| == 0 || !IsDigit(rest[0]))
    ensures AtoifOf(s) == DecimalValue(d)
  {
    assert SkipSpaces(s, 0) == a by {
      assert (d + rest)[0] == d[0];
      SkipSpacesLeading(Spaces(a), d + rest);
    }
    assert SkipDigits(s, a) == a + |d| by {
      SkipDigitsShift(Spaces(a), d + rest, 0);
      SkipDigitsLeading(d, rest);
    }
    assert s[a..a + |d|] == d by {
      SliceMiddle(s, Spaces(a), d, rest);
    }
    AtoifBetween(s, a, d);
  }

  /** The value once the scans' stopping points are known. */
  lemma AtoifBetween(s: seq<char>, start: nat, d: seq<char>)
    requires start + |d| <= |s| && SkipSpaces(s, 0) == start && SkipDigits(s, start) == start + |d|
    requires s[start..start + |d|] == d
    ensures AtoifOf(s) == DecimalValue(d)
  {
  }

  /** A field whose first non-space byte is not a digit (a '-', a letter)
    * or that has no non-space byte at all gives 0. */
  lemma AtoifWithoutDigits(s: seq<char>, a: nat, rest: seq<char>)
    requires s == Spaces(a) + rest
    requires |rest| == 0 || (rest[0] != ' ' && !IsDigit(rest[0]))
    ensures AtoifOf(s) == 0
  {
    SkipSpacesLeading(Spaces(a), rest);
    SkipDigitsShift(Spaces(a), rest, 0);
  }
}
