/** `data_from_table`: column names and well-formed rows of the holidays table. */
module TableExtract {
  import opened Common
  import opened Text
  import opened Fetching

  /** The column names and the kept rows of one table. */
  datatype Extracted = Extracted(columns: seq<string>, rows: seq<seq<string>>)

  /** `[elt.text.strip() for elt in cells]`. */
  function StripAll(cells: seq<string>): seq<string>
  {
    seq(|cells|, i requires 0 <= i < |cells| => Strip(cells[i]))
  }

  /** `[elt for elt in cells if elt]`: the non-empty cells, in order. */
  function DropEmpty(cells: seq<string>): (r: seq<string>)
    ensures |r| <= |cells|
    ensures forall x :: x in r ==> x != [] && x in cells
    ensures forall x :: x in cells && x != [] ==> x in r
  {
    if cells == [] then []
    else if cells[0] == [] then DropEmpty(cells[1..])
    else [cells[0]] + DropEmpty(cells[1..])
  }

  /** Dropping blanks works cell by cell: a blank cell vanishes, any other
      cell stays, and the result of a concatenation is the concatenation of
      the results. So order and repeated cells are kept. */
  lemma {:induction false} DropEmptyAppend(a: seq<string>, b: seq<string>)
    ensures DropEmpty(a + b) == DropEmpty(a) + DropEmpty(b)
    ensures DropEmpty([]) == []
    ensures forall x :: DropEmpty([x]) == if x == [] then [] else [x]
    decreases |a|
  {
    if a == [] {
      assert a + b == b;
    } else {
      assert (a + b)[0] == a[0] && (a + b)[1..] == a[1..] + b;
      DropEmptyAppend(a[1..], b);
      if a[0] != [] {
        assert [a[0]] + DropEmpty(a[1..]) + DropEmpty(b) == [a[0]] + (DropEmpty(a[1..]) + DropEmpty(b));
      }
    }
    forall x ensures DropEmpty([x]) == if x == [] then [] else [x] {
      assert [x][1..] == [];
    }
  }

  /** One body row as it is appended: stripped, then emptied of blanks. */
  function Clean(cells: seq<string>): seq<string>
  {
    DropEmpty(StripAll(cells))
  }

  /** The rows, among `rows`, whose raw cell count is `width`, cleaned, in order. */
  function KeepWidth(rows: seq<seq<string>>, width: nat): seq<seq<string>>
  {
    if rows == [] then []
    else
      var prefix := KeepWidth(rows[..|rows| - 1], width);
      var last := rows[|rows| - 1];
      if |last| == width then prefix + [Clean(last)] else prefix
  }

  /** The reference width is the raw cell count of the first body row. */
  function KeptRows(rows: seq<seq<string>>): seq<seq<string>>
  {
    if rows == [] then [] else KeepWidth(rows, |rows[0]|)
  }

  /** What `data_from_table` returns, or the AttributeError it raises when
      the table or its body is missing. */
  function ExtractTable(doc: Document): Result<Extracted>
  {
    match doc.table
    case None => Err(StructureNotFound)
    case Some(t) =>
      match t.body
      case None => Err(StructureNotFound)
      case Some(rows) => Ok(Extracted(StripAll(t.headerCells), KeptRows(rows)))
  }

  /** `data_from_table`, row loop included: `numCols` is fixed by the first
      row, and a row is appended, blanks dropped, only when its stripped cell
      count (which is its raw cell count) equals `numCols`. */
  method DataFromTable(doc: Document) returns (r: Result<Extracted>)
    ensures r == ExtractTable(doc)
  {
    if doc.table.None? {
      return Err(StructureNotFound);
    }
    var table := doc.table.value;
    if table.body.None? {
      return Err(StructureNotFound);
    }
    var colNames := StripAll(table.headerCells);
    var rows := table.body.value;
    var data: seq<seq<string>> := [];
    var numCols: Option<nat> := None;
    var i := 0;
    while i < |rows|
      invariant 0 <= i <= |rows|
      invariant i == 0 ==> numCols.None? && data == []
      invariant i > 0 ==> numCols == Some(|rows[0]|) && data == KeepWidth(rows[..i], |rows[0]|)
    {
      var cols := StripAll(rows[i]);
      if numCols.None? {
        numCols := Some(|cols|);
      }
      if numCols.value == |cols| {
        data := data + [DropEmpty(cols)];
      }
      assert rows[..i + 1][..i] == rows[..i];
      i := i + 1;
    }
    assert rows[..i] == rows;
    return Ok(Extracted(colNames, data));
  }

  /** Indices of the rows whose raw cell count is `width`, ascending. */
  function MatchingIndices(rows: seq<seq<string>>, width: nat): (ix: seq<nat>)
    ensures forall k :: 0 <= k < |ix| ==> ix[k] < |rows| && |rows[ix[k]]| == width
    ensures forall k, l :: 0 <= k < l < |ix| ==> ix[k] < ix[l]
    ensures forall i :: 0 <= i < |rows| && |rows[i]| == width ==> i in ix
  {
    if rows == [] then []
    else
      var prefix := MatchingIndices(rows[..|rows| - 1], width);
      if |rows[|rows| - 1]| == width then prefix + [|rows| - 1] else prefix
  }

  /** The kept rows are exactly the rows of matching width, each cleaned,
      in their original order. */
  lemma {:induction false} KeepWidthExact(rows: seq<seq<string>>, width: nat)
    ensures |KeepWidth(rows, width)| == |MatchingIndices(rows, width)|
    ensures forall k :: 0 <= k < |KeepWidth(rows, width)| ==>
              KeepWidth(rows, width)[k] == Clean(rows[MatchingIndices(rows, width)[k]])
  {
    if rows != [] {
      var n := |rows| - 1;
      var init := rows[..n];
      KeepWidthExact(init, width);
      var kept, ix := KeepWidth(init, width), MatchingIndices(init, width);
      forall k | 0 <= k < |kept|
        ensures KeepWidth(rows, width)[k] == Clean(rows[MatchingIndices(rows, width)[k]])
      {
        assert KeepWidth(rows, width)[k] == kept[k];
        assert MatchingIndices(rows, width)[k] == ix[k];
        assert rows[ix[k]] == init[ix[k]];
      }
    }
  }

  /** A successful extraction: the column names are the stripped header
      texts in order; the kept rows are exactly the body rows as wide, in
      raw cells, as the first one, each cleaned, in their original order;
      so the first body row is always kept. */
  lemma ExtractTableOk(doc: Document)
    requires ExtractTable(doc).Ok?
    ensures var t := doc.table.value;
            var body := t.body.value;
            var e := ExtractTable(doc).value;
            var ix := MatchingIndices(body, if body == [] then 0 else |body[0]|);
            && e.columns == StripAll(t.headerCells)
            && |e.rows| == |ix|
            && (forall k :: 0 <= k < |e.rows| ==> e.rows[k] == Clean(body[ix[k]]))
            && (body != [] ==> e.rows != [] && e.rows[0] == Clean(body[0]))
  {
    var body := doc.table.value.body.value;
    var e := ExtractTable(doc).value;
    if body != [] {
      var w := |body[0]|;
      assert e.rows == KeepWidth(body, w);
      KeepWidthExact(body, w);
      var ix := MatchingIndices(body, w);
      assert 0 in ix;
      assert ix[0] == 0 by {
        var j :| 0 <= j < |ix| && ix[j] == 0;
        assert forall k :: 0 <= k < |ix| ==> ix[0] <= ix[k];
      }
    }
  }

  /** No kept row holds an empty string, and none is longer than the first
      body row's raw cell count: blanks are dropped after the width test. */
  lemma KeptRowsShape(rows: seq<seq<string>>)
    ensures forall k :: 0 <= k < |KeptRows(rows)| ==>
              [] !in KeptRows(rows)[k] && |KeptRows(rows)[k]| <= |rows[0]|
  {
    if rows != [] {
      var w := |rows[0]|;
      KeepWidthExact(rows, w);
      var ix := MatchingIndices(rows, w);
      forall k | 0 <= k < |KeptRows(rows)|
        ensures [] !in KeptRows(rows)[k] && |KeptRows(rows)[k]| <= w
      {
        assert KeptRows(rows)[k] == Clean(rows[ix[k]]);
      }
    }
  }

  /** A missing table or body is an error, never an empty result. */
  lemma ExtractTableMissing(doc: Document)
    ensures ExtractTable(doc).Err? <==> doc.table.None? || doc.table.value.body.None?
  {
  }
}
