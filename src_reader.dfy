/**
 * The reader base of src/reader.cpp: the settings a reader copies into the
 * columns it creates (the decimal separator, trimming, and whether a
 * failed conversion is missing rather than an error) and the list of its
 * columns, each knowing its own position.  Double and string columns are
 * described by the settings they receive; their classes are not part of
 * this model.
 */
module SrcReader {
  import SrcIntColumn
  import SrcFactorColumn

  /** A column of the reader, with what it was given at creation. */
  datatype Column =
    | DoubleColumn(index: nat, ignore: bool, decimalSeparator: char)
    | IntColumn(intColumn: SrcIntColumn.IntColumn)
    | StringColumn(index: nat, trim: bool)
    | FactorColumn(factorColumn: SrcFactorColumn.FactorColumn)

  /** The column's index in the reader. */
  function IndexOf(c: Column): nat {
    match c
    case DoubleColumn(i, _, _) => i
    case IntColumn(ic) => ic.column
    case StringColumn(i, _) => i
    case FactorColumn(f) => f.column
  }

  class Reader {
    var decimalSeparator: char
    var trim: bool
    var ignore: bool
    var columns: seq<Column>
    /** chartostring, which factor columns convert their fields with. */
    const toText: (seq<char>, bool) -> seq<char>

    /** Column i sits at index i. */
    ghost predicate Indexed()
      reads this
    {
      forall i :: 0 <= i < |columns| ==> IndexOf(columns[i]) == i
    }

    /** The defaults: '.' as decimal separator, no trimming, failed
      * conversions are errors; no columns. */
    constructor (toText: (seq<char>, bool) -> seq<char>)
      ensures decimalSeparator == '.' && !trim && !ignore && columns == [] && Indexed()
      ensures this.toText == toText
    {
      decimalSeparator := '.';
      trim := false;
      ignore := false;
      columns := [];
      this.toText := toText;
    }

    /** add_double_column(): with the ignore flag and the separator. */
    method AddDoubleColumn() returns (c: Column)
      requires Indexed()
      modifies this
      ensures Indexed() && columns == old(columns) + [c]
      ensures c == DoubleColumn(|old(columns)|, ignore, decimalSeparator)
      ensures decimalSeparator == old(decimalSeparator) && trim == old(trim) && ignore == old(ignore)
    {
      c := DoubleColumn(|columns|, ignore, decimalSeparator);
      columns := columns + [c];
    }

    /** add_int_column(): with the ignore flag. */
    method AddIntColumn() returns (c: Column)
      requires Indexed()
      modifies this
      ensures Indexed() && columns == old(columns) + [c]
      ensures c == IntColumn(SrcIntColumn.IntColumn(|old(columns)|, ignore))
      ensures decimalSeparator == old(decimalSeparator) && trim == old(trim) && ignore == old(ignore)
    {
      c := IntColumn(SrcIntColumn.IntColumn(|columns|, ignore));
      columns := columns + [c];
    }

    /** add_string_column(): with the trim flag. */
    method AddStringColumn() returns (c: Column)
      requires Indexed()
      modifies this
      ensures Indexed() && columns == old(columns) + [c]
      ensures c == StringColumn(|old(columns)|, trim)
      ensures decimalSeparator == old(decimalSeparator) && trim == old(trim) && ignore == old(ignore)
    {
      c := StringColumn(|columns|, trim);
      columns := columns + [c];
    }

    /** add_factor_column(): a new factor column with the trim flag and no
      * levels. */
    method AddFactorColumn() returns (f: SrcFactorColumn.FactorColumn)
      requires Indexed()
      modifies this
      ensures fresh(f) && f.Valid() && Indexed() && columns == old(columns) + [FactorColumn(f)]
      ensures f.column == |old(columns)| && f.trim == trim && f.levels == map[] && f.toText == toText
      ensures decimalSeparator == old(decimalSeparator) && trim == old(trim) && ignore == old(ignore)
    {
      f := new SrcFactorColumn.FactorColumn(|columns|, toText);
      f.SetTrim(trim);
      columns := columns + [FactorColumn(f)];
    }

    method GetColumns() returns (cs: seq<Column>)
      ensures cs == columns
    {
      cs := columns;
    }

    /** get_column(i): `columns_[i]`, for i below the number of columns. */
    method GetColumn(i: nat) returns (c: Column)
      requires i < |columns|
      ensures c == columns[i]
      ensures Indexed() ==> IndexOf(c) == i
    {
      c := columns[i];
    }

    method SetDecimalSeparator(separator: char)
      modifies this
      ensures decimalSeparator == separator && trim == old(trim) && ignore == old(ignore)
      ensures columns == old(columns)
    {
      decimalSeparator := separator;
    }

    method GetDecimalSeparator() returns (separator: char)
      ensures separator == decimalSeparator
    {
      separator := decimalSeparator;
    }

    method SetTrim(t: bool)
      modifies this
      ensures trim == t && decimalSeparator == old(decimalSeparator) && ignore == old(ignore)
      ensures columns == old(columns)
    {
      trim := t;
    }

    method GetTrim() returns (t: bool)
      ensures t == trim
    {
      t := trim;
    }

    method SetIgnoreFailedConversion(i: bool)
      modifies this
      ensures ignore == i && decimalSeparator == old(decimalSeparator) && trim == old(trim)
      ensures columns == old(columns)
    {
      ignore := i;
    }

    method GetIgnoreFailedConversion() returns (i: bool)
      ensures i == ignore
    {
      i := ignore;
    }
  }
}
