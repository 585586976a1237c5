/**
 * The integer column of src/intcolumn.cpp: the value of the column's
 * field in the current line, with R's missing value for a blank field and
 * the ignore-failed-conversion policy fixed when the reader creates the
 * column.  The field's bytes are what the reader's `get_buffer` and
 * `get_length` give for the column; src/conversion.cpp is not part of this
 * model, so the field is converted by the strtoint of LaF/src/conversion.cpp.
 */
module SrcIntColumn {
  import opened Text
  import LaFConversion

  /** The column's index and its `ignore_failed_conversion_` flag. */
  datatype IntColumn = IntColumn(column: nat, ignore: bool)

  /** An empty field or one of spaces only. */
  predicate Blank(field: seq<char>) {
    |field| == 0 || AllSpaces(field)
  }

  /** get_value() on the field bytes, with the reader's get_current_line(). */
  function GetValue(c: IntColumn, field: seq<char>, currentLine: nat): (r: IntOutcome)
    requires currentLine < 0x1_0000_0000
    ensures c.ignore ==> r.Number?
    ensures r.Number? && r.value != NaInteger ==> LaFConversion.StrToIntOf(field) == Ok(r.value)
    ensures r.Thrown? ==> && LaFConversion.StrToIntOf(field).Err? && !Blank(field)
                          && r.failure == ConversionFailure(LineBefore(currentLine), c.column, field)
  {
    if Blank(field) then Number(NaInteger)
    else match LaFConversion.StrToIntOf(field)
      case Ok(v) => Number(v)
      case Err(_) =>
        if c.ignore then Number(NaInteger)
        else Thrown(ConversionFailure(LineBefore(currentLine), c.column, field))
  }

  /** A blank field is missing, whatever the policy. */
  lemma BlankIsMissing(c: IntColumn, k: nat, currentLine: nat)
    requires currentLine < 0x1_0000_0000
    ensures GetValue(c, Spaces(k), currentLine) == Number(NaInteger)
  {
  }

  /** A field that is not blank and converts is read as its value. */
  lemma Converts(c: IntColumn, field: seq<char>, v: int, currentLine: nat)
    requires !Blank(field) && LaFConversion.StrToIntOf(field) == Ok(v) && currentLine < 0x1_0000_0000
    ensures GetValue(c, field, currentLine) == Number(v)
  {
  }

  /** A field with a byte other than a space is not blank. */
  lemma NotBlank(field: seq<char>, i: nat)
    requires i < |field| && field[i] != ' '
    ensures !Blank(field)
  {
  }

  /** Spaces, an optional sign, digits and spaces read as the signed
    * decimal value of the digits. */
  lemma ReadsInteger(c: IntColumn, a: nat, g: LaFConversion.Sign, d: seq<char>, b: nat, field: seq<char>, currentLine: nat)
    requires |d| > 0 && AllDigits(d) && currentLine < 0x1_0000_0000
    requires field == Spaces(a) + (LaFConversion.SignText(g) + (d + Spaces(b)))
    ensures GetValue(c, field, currentLine) == Number(LaFConversion.Signed(g == LaFConversion.Minus, DecimalValue(d)))
  {
    AppendAssoc(Spaces(a), LaFConversion.SignText(g), d + Spaces(b));
    DigitsNotBlank(field, Spaces(a) + LaFConversion.SignText(g), d, Spaces(b));
    LaFConversion.StrToIntReadsInteger(a, g, d, b);
    Converts(c, field, LaFConversion.Signed(g == LaFConversion.Minus, DecimalValue(d)), currentLine);
  }

  /** A field with a digit in it is not blank. */
  lemma DigitsNotBlank(field: seq<char>, x: seq<char>, d: seq<char>, z: seq<char>)
    requires field == x + (d + z) && |d| > 0 && AllDigits(d)
    ensures !Blank(field)
  {
    assert field[|x|] == d[0];
    NotBlank(field, |x|);
  }

  /** A space inside the number fails: missing under the ignore policy,
    * otherwise the error naming the line before the current one, the
    * column and the field. */
  lemma InnerSpaceFails(col: IntColumn, x: seq<char>, c: char, z: seq<char>, w: seq<char>, d: char, y: seq<char>, field: seq<char>, currentLine: nat)
    requires c != ' ' && IsDigit(d) && currentLine < 0x1_0000_0000
    requires field == x + ([c] + (z + ([' '] + (w + ([d] + y)))))
    ensures GetValue(col, field, currentLine) == (if col.ignore then Number(NaInteger)
                                                  else Thrown(ConversionFailure(LineBefore(currentLine), col.column, field)))
  {
    LaFConversion.StrToIntRejectsInnerSpace(x, c, z, w, d, y);
    assert field[|x|] == c;
    NotBlank(field, |x|);
    Fails(col, field, currentLine);
  }

  /** A field that is not blank and does not convert fails by the policy. */
  lemma Fails(col: IntColumn, field: seq<char>, currentLine: nat)
    requires !Blank(field) && LaFConversion.StrToIntOf(field).Err? && currentLine < 0x1_0000_0000
    ensures GetValue(col, field, currentLine) == (if col.ignore then Number(NaInteger)
                                                  else Thrown(ConversionFailure(LineBefore(currentLine), col.column, field)))
  {
  }
}
