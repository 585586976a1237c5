/**
 * The integer factor column of LaF/src/intfactorcolumn.cpp: a field holds
 * an integer key, and the column's level map, set up by `set_level`, gives
 * each key a level code and a name.  Reading a field never adds a level;
 * a key without a level is missing.  The field's bytes are what the reader
 * gives for the column.
 */
module LaFIntFactorColumn {
  import opened Text
  import LaFConversion

  /** LevelLabel: a level's code and label. */
  datatype LevelLabel = LevelLabel(code: int, name: seq<char>)

  type LevelMap = map<int, LevelLabel>

  /** Every key has its own code in 1..|levels|; so the codes are exactly
    * 1..|levels|. */
  ghost predicate Numbered(levels: LevelMap) {
    && (forall k :: k in levels ==> 1 <= levels[k].code <= |levels|)
    && (forall k, j :: k in levels && j in levels && levels[k].code == levels[j].code ==> k == j)
  }

  /** An int key as the unsigned int get_level returns. */
  function AsUnsigned(k: int): (u: nat)
    ensures u < 0x1_0000_0000
    ensures 0 <= k < 0x1_0000_0000 ==> u == k
    ensures -0x8000_0000 <= k < 0 ==> u == k + 0x1_0000_0000
  {
    k % 0x1_0000_0000
  }

  /** Reference: get_value on the field bytes. */
  function Lookup(levels: LevelMap, column: nat, field: seq<char>, currentLine: nat): IntOutcome
    requires currentLine < 0x1_0000_0000
  {
    if |field| == 0 || AllSpaces(field) then Number(NaInteger)
    else match LaFConversion.StrToIntOf(field)
      case Err(_) => Thrown(ConversionFailure(LineBefore(currentLine), column, field))
      case Ok(v) => Number(if v in levels then levels[v].code else NaInteger)
  }

  /** Reference: set_level(value, name). */
  function SetLevelOf(levels: LevelMap, value: int, name: seq<char>): (r: LevelMap)
    ensures value in r && r[value].name == name
    ensures value in levels ==> r[value].code == levels[value].code
    ensures value !in levels ==> r[value].code == |levels| + 1
    ensures r.Keys == levels.Keys + {value}
    ensures forall k :: k in levels && k != value ==> r[k] == levels[k]
  {
    if value in levels then levels[value := levels[value].(name := name)]
    else levels[value := LevelLabel(|levels| + 1, name)]
  }

  /** set_level keeps the numbering: a new key takes the unused code
    * one past the others, an existing key keeps its code. */
  lemma NumberedSetLevel(levels: LevelMap, value: int, name: seq<char>)
    requires Numbered(levels)
    ensures Numbered(SetLevelOf(levels, value, name))
  {
    var m := SetLevelOf(levels, value, name);
    if value in levels {
      assert m.Keys == levels.Keys;
      assert forall k :: k in m ==> m[k].code == levels[k].code;
    } else {
      assert |m| == |levels| + 1;
    }
  }

  /** Once numbered, a code belongs to at most one key: get_level and
    * get_label do not depend on the order of the map. */
  lemma CodeOwner(levels: LevelMap, k: int, j: int)
    requires Numbered(levels) && k in levels && j in levels && levels[k].code == levels[j].code
    ensures k == j
  {
  }

  /** After set_level(v, name) the level of v's code is v and its name is
    * the name set. */
  lemma SetLevelThenLookUp(levels: LevelMap, value: int, name: seq<char>)
    requires Numbered(levels)
    ensures var m := SetLevelOf(levels, value, name);
            forall k :: k in m && m[k].code == m[value].code ==> k == value && m[k].name == name
  {
    NumberedSetLevel(levels, value, name);
  }

  /** A field that reads as a key set with set_level looks up to that
    * key's code, which get_level maps back to the key; a key never set is
    * missing. */
  lemma ReadAfterSetLevel(levels: LevelMap, value: int, name: seq<char>, column: nat, field: seq<char>,
                          currentLine: nat)
    requires Numbered(levels) && currentLine < 0x1_0000_0000
    requires !AllSpaces(field) && LaFConversion.StrToIntOf(field) == Ok(value)
    ensures var m := SetLevelOf(levels, value, name);
            && Lookup(m, column, field, currentLine) == Number(m[value].code)
            && 1 <= m[value].code <= |m|
            && forall k :: k in m && m[k].code == m[value].code ==> k == value
    ensures value !in levels ==> Lookup(levels, column, field, currentLine) == Number(NaInteger)
  {
    assert |field| > 0;
    NumberedSetLevel(levels, value, name);
  }

  /** A non-empty set of keys has a key to look at next.  The test below
    * brings the quantifier the solver needs into view. */
  lemma PickFrom(keys: set<int>)
    requires keys != {}
    ensures exists k :: k in keys
  {
    if forall k :: k !in keys {
    }
  }

  class IntFactorColumn {
    const column: nat
    var levels: LevelMap

    ghost predicate Valid()
      reads this
    {
      Numbered(levels)
    }

    constructor (column: nat)
      ensures Valid() && this.column == column && levels == map[]
    {
      this.column := column;
      levels := map[];
    }

    /** get_value() on the field bytes, with the reader's get_current_line();
      * the level map stays as it is. */
    method GetValue(field: seq<char>, currentLine: nat) returns (r: IntOutcome)
      requires currentLine < 0x1_0000_0000
      ensures r == Lookup(levels, column, field, currentLine)
      ensures r.Number? && r.value != NaInteger ==> exists k :: k in levels && levels[k].code == r.value
    {
      var blank := LaFConversion.AllCharsEqual(field, ' ');
      if |field| == 0 || blank {
        return Number(NaInteger);
      }
      var v := LaFConversion.StrToInt(field);
      if v.Err? {
        return Thrown(ConversionFailure(LineBefore(currentLine), column, field));
      }
      if v.value !in levels {
        return Number(NaInteger);
      }
      r := Number(levels[v.value].code);
    }

    /** set_level(value, name): a new key gets the next code, an existing
      * key a new name. */
    method SetLevel(value: int, name: seq<char>)
      requires Valid()
      modifies this
      ensures Valid() && levels == SetLevelOf(old(levels), value, name)
    {
      NumberedSetLevel(levels, value, name);
      if value !in levels {
        var level := |levels| + 1;
        levels := levels[value := LevelLabel(level, name)];
      } else {
        levels := levels[value := levels[value].(name := name)];
      }
    }

    method ClearLevels()
      modifies this
      ensures Valid() && levels == map[]
    {
      levels := map[];
    }

    method NLevels() returns (n: nat)
      ensures n == |levels|
    {
      n := |levels|;
    }

    /** get_level(i): the key whose code is i, as unsigned, or 0 when no
      * key has that code. */
    method GetLevel(i: nat) returns (r: nat)
      requires Valid()
      ensures (forall k :: k in levels ==> levels[k].code != i) ==> r == 0
      ensures forall k :: k in levels && levels[k].code == i ==> r == AsUnsigned(k)
    {
      var keys := levels.Keys;
      while keys != {}
        invariant keys <= levels.Keys
        invariant forall k :: k in levels && k !in keys ==> levels[k].code != i
        decreases |keys|
      {
        PickFrom(keys);
        var k :| k in keys;
        if levels[k].code == i {
          return AsUnsigned(k);
        }
        keys := keys - {k};
      }
      r := 0;
    }

    /** get_label(i): the name of the key whose code is i, or "" when no
      * key has that code. */
    method GetLabel(i: nat) returns (r: seq<char>)
      requires Valid()
      ensures (forall k :: k in levels ==> levels[k].code != i) ==> r == []
      ensures forall k :: k in levels && levels[k].code == i ==> r == levels[k].name
    {
      var keys := levels.Keys;
      while keys != {}
        invariant keys <= levels.Keys
        invariant forall k :: k in levels && k !in keys ==> levels[k].code != i
        decreases |keys|
      {
        PickFrom(keys);
        var k :| k in keys;
        if levels[k].code == i {
          return levels[k].name;
        }
        keys := keys - {k};
      }
      r := [];
    }
  }
}
