/** The metadata table finder and extractor of src/dom-utils/table-metadata.ts. */
module TableMetadata {
  import opened Wrappers
  import opened Dom
  import opened DomUtils
  import Seqs

  /** `isFirstElement`: no element sibling before the node at `p` has content. */
  predicate IsFirstElement(dom: Node, p: Path)
    requires ValidPath(dom, p) && p != []
  {
    FindPriorSiblingWithContent(SiblingsAt(dom, p), Some(Last(p))).None?
  }

  /** `isLastElement`: no element sibling after the node at `p` has content. */
  predicate IsLastElement(dom: Node, p: Path)
    requires ValidPath(dom, p) && p != []
  {
    FindNextSiblingWithContent(SiblingsAt(dom, p), Some(Last(p))).None?
  }

  /** A node is first exactly when every element sibling before it has empty
      `textContent`; text siblings do not count. */
  lemma FirstElementMeans(dom: Node, p: Path)
    requires ValidPath(dom, p) && p != []
    ensures IsFirstElement(dom, p) <==> NoContentBefore(SiblingsAt(dom, p), Last(p))
  {
    var s := SiblingsAt(dom, p);
    var prior := FindPriorSiblingWithContent(s, Some(Last(p)));
    if prior.Some? {
      assert !NoContentBefore(s, Last(p)) by {
        assert prior.value < Last(p) && s[prior.value].Element? && TextContent(s[prior.value]) != "";
      }
    }
  }

  /** A node is last exactly when every element sibling after it has empty
      `textContent`; text siblings do not count. */
  lemma LastElementMeans(dom: Node, p: Path)
    requires ValidPath(dom, p) && p != []
    ensures IsLastElement(dom, p) <==> NoContentAfter(SiblingsAt(dom, p), Last(p))
  {
    var s := SiblingsAt(dom, p);
    var next := FindNextSiblingWithContent(s, Some(Last(p)));
    if next.Some? {
      assert !NoContentAfter(s, Last(p)) by {
        assert Last(p) < next.value < |s| && s[next.value].Element? && TextContent(s[next.value]) != "";
      }
    }
  }

  /** Every element before index `i` has empty `textContent`. */
  predicate NoContentBefore(s: seq<Node>, i: nat)
  {
    forall j :: 0 <= j < i && j < |s| && s[j].Element? ==> TextContent(s[j]) == ""
  }

  /** Every element after index `i` has empty `textContent`. */
  predicate NoContentAfter(s: seq<Node>, i: nat)
  {
    forall j :: i < j < |s| && s[j].Element? ==> TextContent(s[j]) == ""
  }

  /** A table that may be the metadata table: first or last among its siblings. */
  predicate IsBoundary(dom: Node, p: Path)
    requires ValidPath(dom, p) && p != []
  {
    IsFirstElement(dom, p) || IsLastElement(dom, p)
  }

  /** `querySelectorAll("table")` on the document. */
  function Tables(dom: Node): (r: seq<Path>)
    ensures forall k :: 0 <= k < |r| ==> r[k] != [] && HasTag(dom, r[k], "table")
  {
    ElementsByTag(dom, "table")
  }

  /** The boundary test on any position of `dom`. */
  function Boundary(dom: Node): (Path -> bool)
  {
    p => p != [] && ValidPath(dom, p) && IsBoundary(dom, p)
  }

  /** The table `findMetaTable` settles on: the last boundary table in document order. */
  function MetaTable(dom: Node): (r: Option<Path>)
    ensures r.Some? ==> r.value != [] && HasTag(dom, r.value, "table") && IsBoundary(dom, r.value)
  {
    Seqs.LastWhereIsLast(Boundary(dom), Tables(dom));
    Seqs.LastWhere(Boundary(dom), Tables(dom))
  }

  /** `MetaTable` is `None` exactly when no table of the document is first or
      last among its siblings (by content). Otherwise it is such a table, and
      no table after it in document order is. */
  lemma MetaTableIsLastBoundary(dom: Node)
    ensures MetaTable(dom).None? <==>
      forall p :: p != [] && HasTag(dom, p, "table") ==> !IsBoundary(dom, p)
    ensures MetaTable(dom).Some? ==>
      forall q :: q != [] && HasTag(dom, q, "table") && Before(MetaTable(dom).value, q) ==> !IsBoundary(dom, q)
  {
    if MetaTable(dom).None? {
      NoMetaTable(dom);
    } else {
      var m := MetaTable(dom).value;
      assert m != [] && HasTag(dom, m, "table") && IsBoundary(dom, m);
      forall q | q != [] && HasTag(dom, q, "table") && Before(m, q)
        ensures !IsBoundary(dom, q)
      {
        NoBoundaryTableAfterMetaTable(dom, q);
      }
    }
  }

  /** With no metadata table, no table is a boundary. */
  lemma NoMetaTable(dom: Node)
    requires MetaTable(dom).None?
    ensures forall p :: p != [] && HasTag(dom, p, "table") ==> !IsBoundary(dom, p)
  {
    var tables := Tables(dom);
    ElementsByTagComplete(dom, "table");
    forall p | p != [] && HasTag(dom, p, "table")
      ensures !IsBoundary(dom, p)
    {
      Seqs.LastWhereNoneAt(Boundary(dom), tables, p);
    }
  }

  /** A table after the metadata table in document order is no boundary. */
  lemma NoBoundaryTableAfterMetaTable(dom: Node, q: Path)
    requires MetaTable(dom).Some?
    requires q != [] && HasTag(dom, q, "table") && Before(MetaTable(dom).value, q)
    ensures !IsBoundary(dom, q)
  {
    var tables := Tables(dom);
    ElementsByTagComplete(dom, "table");
    ElementsByTagInOrder(dom, "table");
    TreeOrderFollowsPositions(tables);
    var lt := (x, y) => Before(x, y);
    assert forall a, b :: 0 <= a < |tables| && 0 <= b < |tables| && lt(tables[a], tables[b]) ==> a < b;
    Seqs.LastWhereNothingLater(Boundary(dom), tables, lt, q);
  }

  /** `findMetaTable`: walks the tables in document order and keeps the last
      one that is first or last among its siblings; `None` when there is none. */
  method FindMetaTable(dom: Node) returns (metaTable: Option<Path>)
    ensures metaTable == MetaTable(dom)
  {
    metaTable := None;
    var tables := ElementsByTag(dom, "table");
    for i := 0 to |tables|
      invariant metaTable == Seqs.LastWhere(Boundary(dom), tables[..i])
    {
      var isFirstElement := IsFirstElement(dom, tables[i]);
      var isLastElement := IsLastElement(dom, tables[i]);
      Seqs.LastWhereStep(Boundary(dom), tables, i);
      assert Boundary(dom)(tables[i]) == (isFirstElement || isLastElement);
      if isFirstElement || isLastElement {
        metaTable := Some(tables[i]);
      }
    }
    assert tables[..|tables|] == tables;
  }

  /** `Array.from(row.getElementsByTagName("td")).map(cell => cell.textContent)`:
      the text of every `td` below the row, in tree order. `th` cells are not
      among them. */
  function CellTexts(row: Node): (r: seq<string>)
  {
    var cells := ElementsByTag(row, "td");
    seq(|cells|, k requires 0 <= k < |cells| => TextContent(NodeAt(row, cells[k])))
  }

  /** The cell texts of every `tr` below the table (`metaTable.querySelectorAll("tr")`). */
  function RowCells(table: Node): (r: seq<seq<string>>)
  {
    var rows := ElementsByTag(table, "tr");
    seq(|rows|, k requires 0 <= k < |rows| => CellTexts(NodeAt(table, rows[k])))
  }

  /** A row adds an entry only when it has a first and a second cell. */
  predicate Contributes(cells: seq<string>)
  {
    |cells| >= 2
  }

  /** One step of the `forEach`: `metadata[key] = value` for a contributing
      row, nothing for any other. */
  function AddRow(metadata: map<string, string>, cells: seq<string>): (r: map<string, string>)
    ensures r.Keys == metadata.Keys + if Contributes(cells) then {cells[0]} else {}
    ensures forall k :: k in r ==> r[k] == if Contributes(cells) && k == cells[0] then cells[1] else metadata[k]
  {
    if Contributes(cells) then metadata[cells[0] := cells[1]] else metadata
  }

  /** The dictionary the `forEach` builds from the rows, in order. */
  function RowsToMetadata(rows: seq<seq<string>>): map<string, string>
    decreases |rows|
  {
    if rows == [] then map[] else AddRow(RowsToMetadata(rows[..|rows| - 1]), rows[|rows| - 1])
  }

  /** The keys are exactly the first cells of the contributing rows. */
  lemma {:induction false} RowsToMetadataKeys(rows: seq<seq<string>>)
    ensures RowsToMetadata(rows).Keys == set j | 0 <= j < |rows| && Contributes(rows[j]) :: rows[j][0]
    decreases |rows|
  {
    if rows != [] {
      var n := |rows| - 1;
      RowsToMetadataKeys(rows[..n]);
      assert forall j :: 0 <= j < n ==> rows[..n][j] == rows[j];
      var before := set j | 0 <= j < n && Contributes(rows[j]) :: rows[j][0];
      var after := set j | 0 <= j < |rows| && Contributes(rows[j]) :: rows[j][0];
      if Contributes(rows[n]) {
        assert after == before + {rows[n][0]};
      } else {
        assert after == before;
      }
    }
  }

  /** For a key given by several rows, the last of them sets the value. */
  lemma {:induction false} RowsToMetadataLastWins(rows: seq<seq<string>>, j: nat)
    requires j < |rows| && Contributes(rows[j])
    requires forall i :: j < i < |rows| && Contributes(rows[i]) ==> rows[i][0] != rows[j][0]
    ensures rows[j][0] in RowsToMetadata(rows) && RowsToMetadata(rows)[rows[j][0]] == rows[j][1]
    decreases |rows|
  {
    var n := |rows| - 1;
    if j < n {
      RowsToMetadataLastWins(rows[..n], j);
    }
  }

  /** A row with fewer than two cells can be dropped wherever it stands. */
  lemma {:induction false} ShortRowAddsNothing(before: seq<seq<string>>, row: seq<string>, after: seq<seq<string>>)
    requires !Contributes(row)
    ensures RowsToMetadata(before + [row] + after) == RowsToMetadata(before + after)
    decreases |after|
  {
    if after == [] {
      assert before + [row] + after == before + [row];
      assert (before + [row])[..|before|] == before;
      assert before + after == before;
    } else {
      var n := |after| - 1;
      ShortRowAddsNothing(before, row, after[..n]);
      assert (before + [row] + after)[..|before| + n + 1] == before + [row] + after[..n];
      assert (before + after)[..|before| + n] == before + after[..n];
    }
  }

  /** The first two cells of a row, all that is read. */
  function FirstTwo(cells: seq<string>): seq<string>
  {
    if |cells| <= 2 then cells else cells[..2]
  }

  /** Cells after the second are ignored. */
  lemma {:induction false} ExtraCellsIgnored(rows: seq<seq<string>>)
    ensures RowsToMetadata(rows) == RowsToMetadata(seq(|rows|, k requires 0 <= k < |rows| => FirstTwo(rows[k])))
    decreases |rows|
  {
    if rows != [] {
      var n := |rows| - 1;
      var cut := seq(|rows|, k requires 0 <= k < |rows| => FirstTwo(rows[k]));
      ExtraCellsIgnored(rows[..n]);
      assert cut[..n] == seq(n, k requires 0 <= k < n => FirstTwo(rows[..n][k]));
    }
  }

  /** A row with no `td` element below it, such as a header row whose cells
      are all `th`, yields no cells and contributes nothing. */
  lemma HeaderRowAddsNothing(metadata: map<string, string>, row: Node)
    requires forall p :: p != [] && ValidPath(row, p) && NodeAt(row, p).Element? ==> NodeAt(row, p).tag != "td"
    ensures CellTexts(row) == [] && AddRow(metadata, CellTexts(row)) == metadata
  {
    Seqs.FilterNone(TagTest(row, "td"), DescendantPaths(row));
    assert |CellTexts(row)| == 0;
  }

  /** `RowCells` at one row's index. */
  lemma RowCellsAt(table: Node, i: nat)
    requires i < |ElementsByTag(table, "tr")|
    ensures |RowCells(table)| == |ElementsByTag(table, "tr")|
    ensures RowCells(table)[i] == CellTexts(NodeAt(table, ElementsByTag(table, "tr")[i]))
  {
  }

  /** The fold over one more row is one more `AddRow`. */
  lemma RowsToMetadataStep(rows: seq<seq<string>>, i: nat)
    requires i < |rows|
    ensures RowsToMetadata(rows[..i + 1]) == AddRow(RowsToMetadata(rows[..i]), rows[i])
  {
    assert rows[..i + 1][..i] == rows[..i];
  }

  /** `getTableMetadata` as a dictionary. */
  function TableMetadataOf(table: Node): map<string, string>
  {
    RowsToMetadata(RowCells(table))
  }

  /** `getTableMetadata`: for each `tr` below the table, in order, if it has a
      first and a second `td`, sets their texts as key and value. */
  method GetTableMetadata(metaTable: Node) returns (metadata: map<string, string>)
    ensures metadata == TableMetadataOf(metaTable)
  {
    metadata := map[];
    var rows := ElementsByTag(metaTable, "tr");
    ghost var cells := RowCells(metaTable);
    assert |cells| == |rows|;
    for i := 0 to |rows|
      invariant metadata == RowsToMetadata(cells[..i])
    {
      var row := CellTexts(NodeAt(metaTable, rows[i]));
      RowCellsAt(metaTable, i);
      RowsToMetadataStep(cells, i);
      if |row| >= 2 {
        metadata := metadata[row[0] := row[1]];
      }
    }
    assert cells[..|rows|] == cells;
  }

  /** What `extractTableMetadata` returns and the document it leaves. */
  function ExtractedTableMetadata(dom: Node): (map<string, string>, Node)
  {
    match MetaTable(dom)
    case None => (map[], dom)
    case Some(p) =>
      (TableMetadataOf(NodeAt(dom, p)), RemoveAt(dom, p))
  }

  /** `extractTableMetadata`: with no metadata table, an empty dictionary and
      an unchanged document; otherwise the table's dictionary, read before the
      table is removed, and the document without that table. */
  method ExtractTableMetadata(dom: Node) returns (metadata: map<string, string>, dom': Node)
    ensures (metadata, dom') == ExtractedTableMetadata(dom)
    ensures MetaTable(dom).None? ==> metadata == map[] && dom' == dom
    ensures MetaTable(dom).Some? ==>
      var p := MetaTable(dom).value;
      p != [] && ValidPath(dom, p) && metadata == TableMetadataOf(NodeAt(dom, p)) && dom' == RemoveAt(dom, p)
  {
    var metaTable := FindMetaTable(dom);
    if metaTable.None? {
      return map[], dom;
    }
    metadata := GetTableMetadata(NodeAt(dom, metaTable.value));
    dom' := RemoveAt(dom, metaTable.value);
  }

  /** Extraction detaches exactly one node, a boundary table, and nothing
      else (`DetachesOnly`); with no such table the tree is left as it was. */
  lemma ExtractionDetachesOnlyTheTable(dom: Node)
    ensures MetaTable(dom).None? ==> ExtractedTableMetadata(dom).1 == dom
    ensures MetaTable(dom).Some? ==>
      var p := MetaTable(dom).value;
      p != [] && HasTag(dom, p, "table") && IsBoundary(dom, p) &&
      DetachesOnly(dom, ExtractedTableMetadata(dom).1, p)
  {
    if MetaTable(dom).Some? {
      RemoveAtDetachesOnly(dom, MetaTable(dom).value);
    }
  }
}
