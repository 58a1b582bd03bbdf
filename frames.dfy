/**
 * The cleaning step of `parse_contents` on the column view of the uploaded
 * table: forward-fill of the identifying columns, then a `Late` column of
 * `False` when the sheet has none.
 */
module Frames {
  import opened Values

  /** A table as pandas holds it: named columns, all of the same height. */
  datatype Frame = Frame(height: nat, columns: map<string, seq<Cell>>)
  {
    predicate WellFormed()
    {
      forall c :: c in columns ==> |columns[c]| == height
    }
  }

  /** The columns that are forward-filled, in the order they are processed. */
  const FillColumns: seq<string> :=
    ["Housemaid Name", "Housemaid ID", "HM Status", "Request ID MB", "Nationality", "Type"]

  const LateColumn: string := "Late"

  /** pandas `Series.ffill()`; `carry` is the last non-missing value seen above. */
  function FillFrom<T>(column: seq<Option<T>>, carry: Option<T>): (r: seq<Option<T>>)
    ensures |r| == |column|
  {
    if |column| == 0 then []
    else
      var v := if column[0].Some? then column[0] else carry;
      [v] + FillFrom(column[1..], v)
  }

  function FFill<T>(column: seq<Option<T>>): (r: seq<Option<T>>)
    ensures |r| == |column|
  {
    FillFrom(column, None)
  }

  /** The nearest non-missing value at or above row `i`, or `dflt` when there is none. */
  function NearestAbove<T>(column: seq<Option<T>>, i: nat, dflt: Option<T>): Option<T>
    requires i < |column|
  {
    if column[i].Some? then column[i]
    else if i == 0 then dflt
    else NearestAbove(column, i - 1, dflt)
  }

  lemma {:induction false} FillFromAt<T>(column: seq<Option<T>>, carry: Option<T>, i: nat)
    requires i < |column|
    ensures FillFrom(column, carry)[i] == NearestAbove(column, i, carry)
  {
    if i > 0 {
      var v := if column[0].Some? then column[0] else carry;
      FillFromAt(column[1..], v, i - 1);
      NearestAboveTail(column, carry, i);
    }
  }

  lemma {:induction false} NearestAboveTail<T>(column: seq<Option<T>>, carry: Option<T>, i: nat)
    requires 0 < i < |column|
    ensures NearestAbove(column[1..], i - 1, if column[0].Some? then column[0] else carry)
         == NearestAbove(column, i, carry)
  {
    if column[i].None? && i > 1 {
      NearestAboveTail(column, carry, i - 1);
    }
  }

  /** Forward-fill keeps the number of rows, leaves every present cell alone and gives each missing cell
      the nearest present value above it; leading missing cells stay missing. */
  lemma FFillSpec<T>(column: seq<Option<T>>, i: nat)
    requires i < |column|
    ensures |FFill(column)| == |column|
    ensures column[i].Some? ==> FFill(column)[i] == column[i]
    ensures column[i].None? && i > 0 ==> FFill(column)[i] == NearestAbove(column, i - 1, None)
    ensures (forall j :: 0 <= j <= i ==> column[j].None?) ==> FFill(column)[i].None?
  {
    FillFromAt(column, None, i);
    if forall j :: 0 <= j <= i ==> column[j].None? {
      NearestAboveNone(column, i);
    }
  }

  lemma {:induction false} NearestAboveNone<T>(column: seq<Option<T>>, i: nat)
    requires i < |column| && forall j :: 0 <= j <= i ==> column[j].None?
    ensures NearestAbove(column, i, None).None?
  {
    if i > 0 {
      NearestAboveNone(column, i - 1);
    }
  }

  /** Filling twice is filling once. */
  lemma {:induction false} FFillIdempotent<T>(column: seq<Option<T>>)
    ensures FFill(FFill(column)) == FFill(column)
  {
    FillFromFixed(column, None);
  }

  lemma {:induction false} FillFromFixed<T>(column: seq<Option<T>>, carry: Option<T>)
    ensures FillFrom(FillFrom(column, carry), carry) == FillFrom(column, carry)
  {
    if |column| > 0 {
      var v := if column[0].Some? then column[0] else carry;
      FillFromFixed(column[1..], v);
      var f := FillFrom(column, carry);
      assert f[0] == v && f[1..] == FillFrom(column[1..], v);
      if v.None? {
        assert carry.None?;
      }
    }
  }

  /** The fill loop of `parse_contents`: each listed column that the table has is replaced by its
      forward-fill, one after the other; every other column is left as it was. */
  method ForwardFillColumns(columns: map<string, seq<Cell>>) returns (filled: map<string, seq<Cell>>)
    ensures filled.Keys == columns.Keys
    ensures forall c :: c in columns ==>
      filled[c] == if c in FillColumns then FFill(columns[c]) else columns[c]
  {
    filled := columns;
    var i := 0;
    while i < |FillColumns|
      invariant 0 <= i <= |FillColumns|
      invariant filled.Keys == columns.Keys
      invariant forall c :: c in columns ==>
        filled[c] == if c in FillColumns[..i] then FFill(columns[c]) else columns[c]
    {
      var column := FillColumns[i];
      assert column !in FillColumns[..i];
      if column in filled {
        filled := filled[column := FFill(filled[column])];
      }
      assert FillColumns[..i + 1] == FillColumns[..i] + [column];
      i := i + 1;
    }
    assert FillColumns[..i] == FillColumns;
  }

  /** The cleaning tail of `parse_contents`: forward-fill, then add `Late = False` when the column is
      absent. The table keeps its height and stays rectangular. */
  method CleanFrame(df: Frame) returns (out: Frame)
    requires df.WellFormed()
    ensures out.WellFormed() && out.height == df.height
    ensures out.columns.Keys == df.columns.Keys + {LateColumn}
    ensures forall c :: c in df.columns ==>
      out.columns[c] == if c in FillColumns then FFill(df.columns[c]) else df.columns[c]
    ensures LateColumn !in df.columns ==> out.columns[LateColumn] == seq(df.height, _ => Some(Flag(false)))
  {
    var filled := ForwardFillColumns(df.columns);
    if LateColumn !in filled {
      filled := filled[LateColumn := seq(df.height, _ => Some(Flag(false)))];
    }
    out := Frame(df.height, filled);
  }
}
