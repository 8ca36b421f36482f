/** `row_lst_to_row_dicts`: one dictionary per row, column name to cell. */
module Records {
  import opened Common

  /** A row record: column name to cell text. A column the row lacks is
      absent, not empty. */
  type Row = map<string, string>

  /** No later position repeats the name at `j`, so its value is the one a
      dict built left to right keeps. */
  predicate LastOccurrence(names: seq<string>, j: int)
    requires 0 <= j < |names|
  {
    forall k :: j < k < |names| ==> names[k] != names[j]
  }

  /** `r` is what zipping `names` with `cells` into a dict gives: its keys
      are the names, and each name maps to its cell at the name's last
      position. */
  ghost predicate IsRecordOf(names: seq<string>, cells: seq<string>, r: Row)
    requires |names| == |cells|
  {
    && (forall key :: key in r <==> key in names)
    && (forall j :: 0 <= j < |names| && LastOccurrence(names, j) ==> r[names[j]] == cells[j])
  }

  /** Adding one more name and cell keeps a record faithful: the new name
      wins over any earlier cell for that name. */
  lemma RecordsExtend(names: seq<string>, cells: seq<string>, prev: Row)
    requires |names| == |cells| > 0
    requires IsRecordOf(names[..|names| - 1], cells[..|cells| - 1], prev)
    ensures IsRecordOf(names, cells, prev[names[|names| - 1] := cells[|cells| - 1]])
  {
    var n := |names| - 1;
    var r := prev[names[n] := cells[n]];
    assert names == names[..n] + [names[n]];
    forall j | 0 <= j < |names| && LastOccurrence(names, j) ensures r[names[j]] == cells[j] {
      if j < n {
        assert names[n] != names[j];
        assert LastOccurrence(names[..n], j);
      }
    }
  }

  /** `{cname: elt for cname, elt in zip(names, cells)}` for equally long
      sequences: every name is a key, and each key maps to the cell at the
      last position holding that name. */
  function RowDict(names: seq<string>, cells: seq<string>): (r: Row)
    requires |names| == |cells|
    ensures IsRecordOf(names, cells, r)
  {
    if names == [] then map[]
    else
      var n := |names| - 1;
      var prev := RowDict(names[..n], cells[..n]);
      RecordsExtend(names, cells, prev);
      prev[names[n] := cells[n]]
  }

  /** Does some row differ in length from the column names? */
  predicate AnyWidthMismatch(colNames: seq<string>, rows: seq<seq<string>>)
  {
    exists i :: 0 <= i < |rows| && |rows[i]| != |colNames|
  }

  /** `row_lst_to_row_dicts`: fails exactly when some row's length differs
      from the number of column names (never for an empty row list); on
      success, one record per row, in order, keyed by the column names. */
  function RowListToRowDicts(colNames: seq<string>, rows: seq<seq<string>>): (r: Result<seq<Row>>)
    ensures r.Err? <==> AnyWidthMismatch(colNames, rows)
    ensures r.Err? ==> r.error == SchemaMismatch
    ensures r.Ok? ==> |r.value| == |rows|
    ensures r.Ok? ==> forall i :: 0 <= i < |rows| ==> IsRecordOf(colNames, rows[i], r.value[i])
  {
    if |rows| > 0 && AnyWidthMismatch(colNames, rows) then Err(SchemaMismatch)
    else Ok(seq(|rows|, i requires 0 <= i < |rows| => RowDict(colNames, rows[i])))
  }

  /** With no rows there is nothing to check and nothing to build, whatever
      the column names. */
  lemma RowListEmpty(colNames: seq<string>)
    ensures RowListToRowDicts(colNames, []) == Ok([])
  {
  }
}
