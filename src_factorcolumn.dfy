/**
 * The factor column of src/factorcolumn.cpp: every distinct non-empty
 * value of the column gets a level code, 1, 2, 3... in the order the
 * values are first seen, kept in the column's level map.  The value of a
 * field is chartostring of its bytes, optionally trimmed; chartostring is
 * declared in LaF/src/conversion.h, its body is not part of this model, and
 * the column takes it as a function.
 */
module SrcFactorColumn {
  import opened Text

  /** Every level has its own code, and the codes are exactly 1..|levels|. */
  ghost predicate Numbered(levels: map<seq<char>, int>) {
    && levels.Values == Codes(|levels|)
    && forall v, w :: v in levels && w in levels && levels[v] == levels[w] ==> v == w
  }

  /** What get_value does to the level map for a value: an empty value
    * adds nothing, a value seen before keeps its code, a new value gets the
    * code one past the others. */
  function Add(levels: map<seq<char>, int>, value: seq<char>): map<seq<char>, int> {
    if |value| == 0 || value in levels then levels else levels[value := |levels| + 1]
  }

  /** A new level numbered one past the others keeps the numbering. */
  lemma NumberedAdd(levels: map<seq<char>, int>, value: seq<char>)
    requires Numbered(levels)
    ensures Numbered(Add(levels, value))
  {
    if |value| > 0 && value !in levels {
      var n := |levels|;
      var m := levels[value := n + 1];
      assert |m| == n + 1;
      forall x
        ensures x in m.Values <==> x in Codes(n + 1)
      {
        if x in Codes(n + 1) {
          if x == n + 1 {
            assert m[value] == x;
          } else {
            assert x in levels.Values;
            var w :| w in levels && levels[w] == x;
            assert m[w] == x;
          }
        }
        if x in m.Values {
          var w :| w in m && m[w] == x;
          if w != value {
            assert levels[w] in levels.Values;
          }
        }
      }
      assert forall u :: u in levels ==> levels[u] in levels.Values;
      forall v, w | v in m && w in m && m[v] == m[w]
        ensures v == w
      {
        if v != value && w != value {
          assert levels[v] == levels[w];
        }
      }
    }
  }

  /** Reference: the level map after get_value on `values`, from an empty
    * map. */
  function LevelsOf(values: seq<seq<char>>): map<seq<char>, int>
    decreases |values|
  {
    if |values| == 0 then map[] else Add(LevelsOf(values[..|values| - 1]), values[|values| - 1])
  }

  /** Reference: the distinct non-empty values in the order they first
    * appear. */
  function FirstSeen(values: seq<seq<char>>): seq<seq<char>>
    decreases |values|
  {
    if |values| == 0 then []
    else
      var f := FirstSeen(values[..|values| - 1]);
      var v := values[|values| - 1];
      if |v| == 0 || v in f then f else f + [v]
  }

  /** The level codes are the positions of first appearance: the k-th
    * distinct non-empty value gets code k, and no other value is a level. */
  lemma {:induction false} LevelsAreFirstSeen(values: seq<seq<char>>)
    ensures var m := LevelsOf(values);
            var f := FirstSeen(values);
            && |m| == |f|
            && (forall i :: 0 <= i < |f| ==> f[i] in m && m[f[i]] == i + 1)
            && (forall v :: v in m ==> v in f)
    decreases |values|
  {
    if |values| > 0 {
      var pre := values[..|values| - 1];
      var v := values[|values| - 1];
      LevelsAreFirstSeen(pre);
      var m := LevelsOf(pre);
      var f := FirstSeen(pre);
      if |v| > 0 && v !in f {
        assert v !in m;
        assert |m[v := |m| + 1]| == |m| + 1;
        var f' := f + [v];
        forall i | 0 <= i < |f'|
          ensures f'[i] in m[v := |m| + 1] && m[v := |m| + 1][f'[i]] == i + 1
        {
          if i < |f| {
            assert f'[i] == f[i] && f[i] != v;
          }
        }
      }
    }
  }

  /** The map of an empty start grows by at most one level per value and
    * keeps its numbering. */
  lemma {:induction false} LevelsOfNumbered(values: seq<seq<char>>)
    ensures Numbered(LevelsOf(values))
    decreases |values|
  {
    if |values| > 0 {
      LevelsOfNumbered(values[..|values| - 1]);
      NumberedAdd(LevelsOf(values[..|values| - 1]), values[|values| - 1]);
    } else {
      assert Codes(0) == {};
    }
  }

  class FactorColumn {
    const column: nat
    /** chartostring(buffer, length, trim). */
    const toText: (seq<char>, bool) -> seq<char>
    var trim: bool
    var levels: map<seq<char>, int>

    ghost predicate Valid()
      reads this
    {
      Numbered(levels)
    }

    /** A new column trims nothing and has no levels. */
    constructor (column: nat, toText: (seq<char>, bool) -> seq<char>)
      ensures Valid() && this.column == column && this.toText == toText
      ensures !trim && levels == map[]
    {
      this.column := column;
      this.toText := toText;
      trim := false;
      levels := map[];
      new;
      assert Codes(0) == {};
    }

    method SetTrim(t: bool)
      modifies this
      ensures trim == t && levels == old(levels)
    {
      trim := t;
    }

    method GetTrim() returns (t: bool)
      ensures t == trim
    {
      t := trim;
    }

    method GetLevels() returns (m: map<seq<char>, int>)
      ensures m == levels
    {
      m := levels;
    }

    /** get_value() on the field bytes: missing for an empty value, the
      * level code otherwise, a new value first getting the next code. */
    method GetValue(field: seq<char>) returns (code: int)
      requires Valid()
      modifies this
      ensures Valid() && trim == old(trim)
      ensures levels == Add(old(levels), toText(field, trim))
      ensures var value := toText(field, trim);
              && (|value| == 0 ==> code == NaInteger)
              && (|value| > 0 ==> value in levels && code == levels[value])
              && (|value| > 0 && value in old(levels) ==> code == old(levels)[value])
              && (|value| > 0 && value !in old(levels) ==> code == |old(levels)| + 1)
    {
      var value := toText(field, trim);
      if |value| == 0 {
        return NaInteger;
      }
      NumberedAdd(levels, value);
      assert value in levels ==> levels[value] in levels.Values;
      if value !in levels {
        levels := levels[value := |levels| + 1];
      } else if levels[value] == 0 {
        assert false;
      }
      code := levels[value];
    }
  }
}
