/**
 * `tables_to_gridtables` (app.py lines 323-366): every `<table>` of the
 * document is replaced by a two-column grid of `div`s, a header row of at
 * most two cells followed by one row per non-empty body row.
 */
module GridTables {
  import opened Wrappers
  import opened Strings
  import opened Dom

  /** The header row used when the table has no header cells. */
  const DefaultHeaders: seq<string> := ["Category", "Fact / Detail"]

  function Min(a: nat, b: nat): nat {
    if a < b then a else b
  }

  /** `headers`: the text of every `th` in the `thead`; none without one. */
  function HeaderTexts(head: Option<seq<Node>>): seq<string> {
    match head
    case None => []
    case Some(ths) => seq(|ths|, i requires 0 <= i < |ths| => GetText(ths[i]))
  }

  /** `rows`: for every body row, the stripped inner HTML of its cells. */
  function RowTexts(body: Option<seq<seq<string>>>): seq<seq<string>> {
    match body
    case None => []
    case Some(trs) =>
      seq(|trs|, j requires 0 <= j < |trs| =>
        seq(|trs[j]|, k requires 0 <= k < |trs[j]| => Strip(trs[j][k])))
  }

  /** `use_headers`. */
  function UseHeaders(headers: seq<string>): seq<string> {
    if headers != [] then headers[..Min(2, |headers|)] else DefaultHeaders
  }

  /** A row after `while len(r) < 2: r.append("")`. */
  function Padded(r: seq<string>): seq<string> {
    if |r| < 2 then r + seq(2 - |r|, _ => "") else r
  }

  /** A `gt-cell` div holding `kids`. */
  function Cell(kids: seq<Node>): Node {
    Element("div", ["gt-cell"], kids)
  }

  /** What `append_fragment` adds for a cell's HTML: nothing for the empty
      string, else the parsed fragment, which the model keeps unparsed. */
  function Fragment(html: string): seq<Node> {
    if html == "" then [] else [Markup(html)]
  }

  /** The `gt-row gt-head` div: one cell per header, each holding its text. */
  function HeadRow(hs: seq<string>): Node {
    Element("div", ["gt-row", "gt-head"], seq(|hs|, i requires 0 <= i < |hs| => Cell([Text(hs[i])])))
  }

  /** A `gt-row` div holding the first two cells of a padded row. */
  function BodyRow(r: seq<string>): Node
    requires |r| >= 2
  {
    Element("div", ["gt-row"], [Cell(Fragment(r[0])), Cell(Fragment(r[1]))])
  }

  /** The rows the loop over `rows` appends, empty rows skipped. */
  function BodyRows(rows: seq<seq<string>>): seq<Node> {
    if rows == [] then []
    else
      var last := rows[|rows| - 1];
      BodyRows(rows[..|rows| - 1]) + (if last == [] then [] else [BodyRow(Padded(last))])
  }

  /** The `gridtable` div that replaces a table with these headers and rows. */
  function Grid(headers: seq<string>, rows: seq<seq<string>>): Node {
    Element("div", ["gridtable"], [HeadRow(UseHeaders(headers))] + BodyRows(rows))
  }

  /** Builds the grid for one table the way the body of the loop over tables
      does: header cells first, then for every non-empty row a padded copy
      and a two-cell row. */
  method BuildGrid(headers: seq<string>, rows: seq<seq<string>>) returns (gt: Node)
    ensures gt == Grid(headers, rows)
  {
    var useHeaders := if headers != [] then headers[..Min(2, |headers|)] else DefaultHeaders;
    var cells: seq<Node> := [];
    for k := 0 to |useHeaders|
      invariant cells == seq(k, i requires 0 <= i < k => Cell([Text(useHeaders[i])]))
    {
      cells := cells + [Cell([Text(useHeaders[k])])];
    }
    var kids := [Element("div", ["gt-row", "gt-head"], cells)];
    for j := 0 to |rows|
      invariant kids == [HeadRow(UseHeaders(headers))] + BodyRows(rows[..j])
    {
      assert rows[..j + 1][..j] == rows[..j];
      var r := rows[j];
      if r != [] {
        while |r| < 2
          invariant 1 <= |r| <= 2 || r == rows[j]
          invariant Padded(r) == Padded(rows[j])
          decreases 2 - |r|
        {
          r := r + [""];
        }
        kids := kids + [Element("div", ["gt-row"], [Cell(Fragment(r[0])), Cell(Fragment(r[1]))])];
      }
    }
    assert rows[..|rows|] == rows;
    gt := Element("div", ["gridtable"], kids);
  }

  // ---------------------------------------------------------------------------
  // Reading a grid back
  // ---------------------------------------------------------------------------

  /** The string a grid cell shows: its text, or its markup fragment. */
  function CellString(c: Node): string {
    if c.Element? && |c.children| == 1 && c.children[0].Text? then c.children[0].text
    else if c.Element? && |c.children| == 1 && c.children[0].Markup? then c.children[0].html
    else ""
  }

  /** The strings a grid row shows, cell by cell. */
  function ReadRow(row: Node): seq<string> {
    if row.Element? then seq(|row.children|, i requires 0 <= i < |row.children| => CellString(row.children[i]))
    else []
  }

  /** The body rows of a table that hold at least one cell, in order. */
  function NonEmptyRows(rows: seq<seq<string>>): (r: seq<seq<string>>)
    ensures forall i :: 0 <= i < |r| ==> r[i] != []
  {
    if rows == [] then []
    else (if rows[0] == [] then [] else [rows[0]]) + NonEmptyRows(rows[1..])
  }

  /** The first two cells of a row, a missing second cell read as "". */
  function FirstTwo(r: seq<string>): seq<string>
    requires r != []
  {
    [r[0], if |r| >= 2 then r[1] else ""]
  }

  lemma {:induction false} NonEmptyRowsSnoc(rows: seq<seq<string>>, r: seq<string>)
    ensures NonEmptyRows(rows + [r]) == NonEmptyRows(rows) + (if r == [] then [] else [r])
    decreases |rows|
  {
    if rows == [] {
      assert rows + [r] == [r];
    } else {
      assert (rows + [r])[1..] == rows[1..] + [r];
      NonEmptyRowsSnoc(rows[1..], r);
    }
  }

  /** A grid row showing exactly the first two cells of the table row `r`. */
  predicate ShowsRow(row: Node, r: seq<string>) {
    r != [] && row.Element? && row.classes == ["gt-row"] && |row.children| == 2 &&
    ReadRow(row) == FirstTwo(r)
  }

  /** The body rows of the grid are the non-empty table rows in order, each
      showing exactly its first two cells. */
  lemma {:induction false} BodyRowsShowRows(rows: seq<seq<string>>)
    ensures |BodyRows(rows)| == |NonEmptyRows(rows)|
    ensures forall j :: 0 <= j < |BodyRows(rows)| ==> ShowsRow(BodyRows(rows)[j], NonEmptyRows(rows)[j])
    decreases |rows|
  {
    if rows != [] {
      var init, last := rows[..|rows| - 1], rows[|rows| - 1];
      assert rows == init + [last];
      BodyRowsShowRows(init);
      NonEmptyRowsSnoc(init, last);
      if last != [] {
        LastRowShows(last);
        ShowsSnoc(BodyRows(init), NonEmptyRows(init), BodyRow(Padded(last)), last);
      }
    }
  }

  lemma LastRowShows(last: seq<string>)
    requires last != []
    ensures ShowsRow(BodyRow(Padded(last)), last)
  {
    var p := Padded(last);
    assert p[0] == last[0];
    assert p[1] == if |last| >= 2 then last[1] else "";
  }

  lemma ShowsSnoc(bs: seq<Node>, ns: seq<seq<string>>, b: Node, n: seq<string>)
    requires |bs| == |ns| && forall j :: 0 <= j < |bs| ==> ShowsRow(bs[j], ns[j])
    requires ShowsRow(b, n)
    ensures forall j :: 0 <= j < |bs| + 1 ==> ShowsRow((bs + [b])[j], (ns + [n])[j])
  {
  }

  lemma HeadRowShows(hs: seq<string>)
    ensures ReadRow(HeadRow(hs)) == hs
  {
    var row := HeadRow(hs);
    forall i | 0 <= i < |hs| ensures CellString(row.children[i]) == hs[i] {
      assert row.children[i] == Cell([Text(hs[i])]);
    }
  }

  /** The grid that replaces a table: a header row showing the first one or
      two header texts, or exactly "Category" and "Fact / Detail" when there
      are none, then one two-cell row per non-empty body row, in order. */
  lemma GridShowsTable(headers: seq<string>, rows: seq<seq<string>>, g: Node)
    requires g == Grid(headers, rows)
    ensures g.Element? && g.classes == ["gridtable"]
    ensures |g.children| == 1 + |NonEmptyRows(rows)|
    ensures 1 <= |ReadRow(g.children[0])| <= 2
    ensures headers == [] ==> ReadRow(g.children[0]) == ["Category", "Fact / Detail"]
    ensures headers != [] ==> ReadRow(g.children[0]) == headers[..Min(2, |headers|)]
    ensures forall j :: 0 <= j < |NonEmptyRows(rows)| ==> ShowsRow(g.children[1 + j], NonEmptyRows(rows)[j])
  {
    BodyRowsShowRows(rows);
    HeadRowShows(UseHeaders(headers));
    var body := BodyRows(rows);
    assert g.children == [HeadRow(UseHeaders(headers))] + body;
    assert forall j :: 0 <= j < |body| ==> g.children[1 + j] == body[j];
  }

  // ---------------------------------------------------------------------------
  // The pass over the document
  // ---------------------------------------------------------------------------

  /** The node after every table in it has been replaced by its grid. */
  function GridNode(n: Node): Node
    decreases n
  {
    match n
    case Table(head, body) => Grid(HeaderTexts(head), RowTexts(body))
    case Element(name, classes, kids) => Element(name, classes, GridList(kids))
    case _ => n
  }

  function GridList(nodes: seq<Node>): (r: seq<Node>)
    ensures |r| == |nodes|
    decreases nodes
  {
    if nodes == [] then [] else [GridNode(nodes[0])] + GridList(nodes[1..])
  }

  predicate NodeHasNoTable(n: Node)
    decreases n
  {
    match n
    case Table(_, _) => false
    case Element(_, _, kids) => NoTable(kids)
    case _ => true
  }

  /** No table anywhere in or under `nodes`. */
  predicate NoTable(nodes: seq<Node>)
    decreases nodes
  {
    nodes == [] || (NodeHasNoTable(nodes[0]) && NoTable(nodes[1..]))
  }

  lemma {:induction false} NoTableSeq(nodes: seq<Node>)
    requires forall i :: 0 <= i < |nodes| ==> NodeHasNoTable(nodes[i])
    ensures NoTable(nodes)
    decreases |nodes|
  {
    if nodes != [] {
      assert forall i :: 0 <= i < |nodes| - 1 ==> nodes[1..][i] == nodes[i + 1];
      NoTableSeq(nodes[1..]);
    }
  }

  lemma GridHasNoTable(headers: seq<string>, rows: seq<seq<string>>)
    ensures NodeHasNoTable(Grid(headers, rows))
  {
    var hs := UseHeaders(headers);
    var head := HeadRow(hs);
    forall i | 0 <= i < |hs| ensures NodeHasNoTable(head.children[i]) {
      NoTableSeq([Text(hs[i])]);
    }
    NoTableSeq(head.children);
    var body := BodyRows(rows);
    forall j | 0 <= j < |body| ensures NodeHasNoTable(body[j]) {
      BodyRowHasNoTable(rows, j);
    }
    NoTableSeq([head] + body);
  }

  lemma {:induction false} BodyRowHasNoTable(rows: seq<seq<string>>, j: nat)
    requires j < |BodyRows(rows)|
    ensures NodeHasNoTable(BodyRows(rows)[j])
    decreases |rows|
  {
    var init, last := rows[..|rows| - 1], rows[|rows| - 1];
    if j < |BodyRows(init)| {
      BodyRowHasNoTable(init, j);
    } else {
      var p := Padded(last);
      NoTableSeq(Fragment(p[0]));
      NoTableSeq(Fragment(p[1]));
      NoTableSeq([Cell(Fragment(p[0])), Cell(Fragment(p[1]))]);
    }
  }

  /** After the pass no table is left anywhere in the document. */
  lemma {:induction false} GridListRemovesTables(nodes: seq<Node>)
    ensures NoTable(GridList(nodes))
    decreases nodes
  {
    if nodes != [] {
      var n := nodes[0];
      match n {
        case Table(head, body) =>
          GridHasNoTable(HeaderTexts(head), RowTexts(body));
        case Element(name, classes, kids) =>
          GridListRemovesTables(kids);
        case _ =>
      }
      GridListRemovesTables(nodes[1..]);
      var r := GridList(nodes);
      assert r[0] == GridNode(n) && r[1..] == GridList(nodes[1..]);
    }
  }

  /** A document without tables is left alone, so a second run of the pass
      changes nothing. */
  lemma {:induction false} GridListKeepsTableFree(nodes: seq<Node>)
    requires NoTable(nodes)
    ensures GridList(nodes) == nodes
    decreases nodes
  {
    if nodes != [] {
      var n := nodes[0];
      if n.Element? {
        GridListKeepsTableFree(n.children);
      }
      GridListKeepsTableFree(nodes[1..]);
      assert GridList(nodes) == [GridNode(n)] + GridList(nodes[1..]);
    }
  }

  lemma GridListIdempotent(nodes: seq<Node>)
    ensures GridList(GridList(nodes)) == GridList(nodes)
  {
    GridListRemovesTables(nodes);
    GridListKeepsTableFree(GridList(nodes));
  }

  /** The loop over the document's tables, each replaced in place by the
      grid BuildGrid makes for it. */
  method GridChildren(nodes: seq<Node>) returns (r: seq<Node>)
    ensures r == GridList(nodes)
    decreases nodes
  {
    r := [];
    var i := 0;
    while i < |nodes|
      invariant i <= |nodes|
      invariant r + GridList(nodes[i..]) == GridList(nodes)
    {
      var n := nodes[i];
      var g := n;
      match n {
        case Table(head, body) =>
          g := BuildGrid(HeaderTexts(head), RowTexts(body));
        case Element(name, classes, kids) =>
          var kids' := GridChildren(kids);
          g := Element(name, classes, kids');
        case _ =>
      }
      GridStep(nodes, i, r, g);
      r := r + [g];
      i := i + 1;
    }
  }

  lemma GridStep(nodes: seq<Node>, i: nat, r: seq<Node>, g: Node)
    requires i < |nodes| && r + GridList(nodes[i..]) == GridList(nodes) && g == GridNode(nodes[i])
    ensures (r + [g]) + GridList(nodes[i + 1..]) == GridList(nodes)
  {
    assert nodes[i..][1..] == nodes[i + 1..];
    GridUnfold(nodes[i..]);
    SnocAssoc(r, g, GridList(nodes[i + 1..]));
  }

  lemma GridUnfold(l: seq<Node>)
    requires l != []
    ensures GridList(l) == [GridNode(l[0])] + GridList(l[1..])
  {
  }
}
