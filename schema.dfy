/**
 * What `setColumns` of the current engines accepts, and what it records:
 * the total row width and, for the dynamic engine, the number of flexible
 * (width 0) columns.
 */
module Schema {
  import opened Bytes
  import opened Values
  import opened Column
  import RowCodec

  function NameSet(cols: seq<ColumnType>): set<string>
  {
    set i | 0 <= i < |cols| :: cols[i].name
  }

  predicate UniqueNames(cols: seq<ColumnType>)
  {
    forall i, j :: 0 <= i < j < |cols| ==> cols[i].name != cols[j].name
  }

  /**
   * The outcome of `setColumns`: the columns are taken in order, and the
   * first one whose name was seen before ("Same column name exists.") or
   * whose `GetBytes` fails decides the error; otherwise the widths are summed.
   */
  function CheckColumns(cols: seq<ColumnType>): (r: Result<int>)
    ensures r.Ok? ==> r.value >= 0
    decreases |cols|
  {
    if cols == [] then Ok(0)
    else
      var init := cols[..|cols| - 1];
      var c := cols[|cols| - 1];
      match CheckColumns(init)
      case Err(e) => Err(e)
      case Ok(w) =>
        if c.name in NameSet(init) then Err(SameColumnName)
        else match GetBytes(c)
          case Err(e) => Err(e)
          case Ok(cw) => Ok(w + cw)
  }

  /** The number of flexible columns: strings declared with size 0. */
  function FlexibleCount(cols: seq<ColumnType>): nat
    decreases |cols|
  {
    if cols == [] then 0
    else FlexibleCount(cols[..|cols| - 1]) + (if GetBytes(cols[|cols| - 1]) == Ok(0) then 1 else 0)
  }

  lemma NameSetSnoc(cols: seq<ColumnType>, c: ColumnType)
    ensures NameSet(cols + [c]) == NameSet(cols) + {c.name}
  {
    var s := cols + [c];
    assert forall i :: 0 <= i < |cols| ==> s[i] == cols[i];
    assert s[|cols|] == c;
  }

  /** A schema is accepted exactly when its names are distinct and every column is valid. */
  lemma {:induction false} CheckColumnsOk(cols: seq<ColumnType>)
    ensures CheckColumns(cols).Ok? <==>
            UniqueNames(cols) && forall i :: 0 <= i < |cols| ==> GetBytes(cols[i]).Ok?
    decreases |cols|
  {
    if cols != [] {
      var init := cols[..|cols| - 1];
      var c := cols[|cols| - 1];
      CheckColumnsOk(init);
      assert cols == init + [c];
      assert forall i :: 0 <= i < |init| ==> init[i] == cols[i];
      if CheckColumns(init).Ok? && c.name in NameSet(init) {
        var i :| 0 <= i < |init| && init[i].name == c.name;
        assert cols[i].name == cols[|cols| - 1].name;
      }
    }
  }

  /** The width `setColumns` records is the offset of the end of a row's columns. */
  lemma {:induction false} CheckColumnsWidth(cols: seq<ColumnType>)
    requires CheckColumns(cols).Ok?
    ensures CheckColumns(cols).value == RowCodec.WidthSum(Latest, cols)
    ensures forall i :: 0 <= i < |cols| ==> GetBytes(cols[i]).Ok?
    decreases |cols|
  {
    CheckColumnsOk(cols);
    if cols != [] {
      var init := cols[..|cols| - 1];
      assert forall i :: 0 <= i < |init| ==> init[i] == cols[i];
      CheckColumnsWidth(init);
    }
  }

  /** One turn of the `setColumns` loop. */
  lemma CheckStep(cols: seq<ColumnType>, i: nat)
    requires i < |cols|
    ensures CheckColumns(cols[..i + 1]) ==
            match CheckColumns(cols[..i])
            case Err(e) => Err(e)
            case Ok(w) =>
              if cols[i].name in NameSet(cols[..i]) then Err(SameColumnName)
              else match GetBytes(cols[i])
                case Err(e) => Err(e)
                case Ok(cw) => Ok(w + cw)
    ensures NameSet(cols[..i + 1]) == NameSet(cols[..i]) + {cols[i].name}
  {
    assert cols[..i + 1][..i] == cols[..i];
    assert cols[..i + 1] == cols[..i] + [cols[i]];
    NameSetSnoc(cols[..i], cols[i]);
  }

  /** The first refused column decides the outcome of the whole schema. */
  lemma {:induction false} CheckColumnsStops(cols: seq<ColumnType>, j: nat)
    requires j <= |cols| && CheckColumns(cols[..j]).Err?
    ensures CheckColumns(cols) == CheckColumns(cols[..j])
    decreases |cols| - j
  {
    if j < |cols| {
      var init := cols[..|cols| - 1];
      assert init[..j] == cols[..j];
      CheckColumnsStops(init, j);
    } else {
      assert cols[..j] == cols;
    }
  }

  /** Every column has a positive width: no flexible string. */
  predicate PositiveWidths(cols: seq<ColumnType>)
  {
    forall i :: 0 <= i < |cols| ==> GetBytes(cols[i]).Ok? && GetBytes(cols[i]).value > 0
  }
}
