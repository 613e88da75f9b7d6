/** Reading one column of an array of rows: `SHARED_GATES` and the loops over pairs of names
    (bin/sibling-reference-map.js). Rows and cells may be commented anywhere.
 */
module TableColumns {
  import opened Options
  import opened CommentStripper
  import opened LiteralList
  import opened LiteralRoundTrip
  import opened NestedCells

  /** What may stand between two commas of the array: nothing but comments and white space, or a row in brackets. */
  datatype TableRow = Empty(pad: seq<Node>) | TableRow(before: seq<Node>, cells: seq<seq<Node>>, after: seq<Node>)

  predicate RowWritten(r: TableRow) {
    match r
    case Empty(p) => Padding(p) && Written(p, true)
    case TableRow(b, cells, a) =>
      Padding(b) && Written(b, true) && Padding(a) && Written(a, true) && cells != [] && AllWritten(cells)
  }

  predicate AllWritten(cells: seq<seq<Node>>) { forall i :: 0 <= i < |cells| ==> Written(cells[i], true) }

  predicate TableWritten(rows: seq<TableRow>) { forall i :: 0 <= i < |rows| ==> RowWritten(rows[i]) }

  function JoinNodes(cells: seq<seq<Node>>): seq<Node>
    requires cells != []
  {
    if |cells| == 1 then cells[0] else cells[0] + ([Other(',')] + JoinNodes(cells[1..]))
  }

  function RowNodes(r: TableRow): seq<Node>
    requires r.TableRow? ==> r.cells != []
  {
    match r
    case Empty(p) => p
    case TableRow(b, cells, a) => b + ([Group('[', JoinNodes(cells), ']')] + a)
  }

  function TableNodes(rows: seq<TableRow>): (r: seq<seq<Node>>)
    requires TableWritten(rows)
    ensures |r| == |rows| && forall i :: 0 <= i < |rows| ==> r[i] == RowNodes(rows[i])
  {
    if rows == [] then [] else [RowNodes(rows[0])] + TableNodes(rows[1..])
  }

  /** The cells that are not blank. */
  function Filled(cells: seq<seq<Node>>): seq<seq<Node>> {
    if cells == [] then [] else (if Padding(cells[0]) then [] else [cells[0]]) + Filled(cells[1..])
  }

  function RowItem(r: TableRow, k: nat): seq<string> {
    match r
    case Empty(_) => []
    case TableRow(_, cells, _) => if k < |Filled(cells)| then ItemOf(Filled(cells)[k]) else []
  }

  /** The items of a column, blank cells not counted. */
  function ColumnItems(rows: seq<TableRow>, k: nat): seq<string> {
    if rows == [] then [] else RowItem(rows[0], k) + ColumnItems(rows[1..], k)
  }

  // ---- Rows are code ----

  lemma {:induction false} Loosen(n: Node)
    requires NodeWritten(n, true)
    ensures NodeWritten(n, false)
  {
  }

  lemma WrittenBoth(a: seq<Node>, b: seq<Node>, top: bool)
    requires Written(a, top) && Written(b, top) && (a != [] && b != [] && a[|a| - 1] == Other('/') ==> !Opens(b[0]))
    ensures Written(a + b, top)
  {
    forall i | 0 <= i < |a + b| - 1 && (a + b)[i] == Other('/') ensures !Opens((a + b)[i + 1]) {
      if i < |a| { assert a[i] == Other('/'); } else { assert b[i - |a|] == Other('/'); }
    }
  }

  lemma LoosenAll(ns: seq<Node>)
    requires Written(ns, true)
    ensures Written(ns, false)
  {
    forall n | n in ns ensures NodeWritten(n, false) { Loosen(n); }
  }

  lemma {:induction false} JoinedWritten(cells: seq<seq<Node>>)
    requires cells != [] && AllWritten(cells)
    ensures Written(JoinNodes(cells), false)
  {
    LoosenAll(cells[0]);
    if |cells| > 1 {
      var comma := [Other(',')];
      JoinedWritten(cells[1..]);
      WrittenBoth(comma, JoinNodes(cells[1..]), false);
      WrittenBoth(cells[0], comma + JoinNodes(cells[1..]), false);
    }
  }

  lemma RowIsWritten(r: TableRow)
    requires RowWritten(r)
    ensures Written(RowNodes(r), true)
  {
    if r.TableRow? {
      var group := [Group('[', JoinNodes(r.cells), ']')];
      JoinedWritten(r.cells);
      WrittenBoth(group, r.after, true);
      assert r.before != [] ==> Pad(r.before[|r.before| - 1]);
      WrittenBoth(r.before, group + r.after, true);
    }
  }

  lemma TableIsWritten(rows: seq<TableRow>)
    requires TableWritten(rows)
    ensures AllWritten(TableNodes(rows))
  {
    forall i | 0 <= i < |rows| ensures Written(TableNodes(rows)[i], true) { RowIsWritten(rows[i]); }
  }

  // ---- Stripping cells joined by commas ----

  function BareCells(cells: seq<seq<Node>>): (r: seq<seq<Node>>)
    ensures |r| == |cells| && forall i :: 0 <= i < |cells| ==> r[i] == BareNodes(cells[i])
  {
    if cells == [] then [] else [BareNodes(cells[0])] + BareCells(cells[1..])
  }

  predicate AllBare(cells: seq<seq<Node>>) { forall i :: 0 <= i < |cells| ==> NodesOk(cells[i], true) }

  lemma BareCellsOk(cells: seq<seq<Node>>)
    requires AllWritten(cells)
    ensures AllBare(BareCells(cells))
  {
    forall i | 0 <= i < |cells| ensures NodesOk(BareCells(cells)[i], true) { BareOk(cells[i], true); }
  }

  lemma {:induction false} StripJoined(cells: seq<seq<Node>>, u: string)
    requires cells != [] && AllWritten(cells) && AfterSlash(u)
    ensures Strip(JoinCells(cells) + u, Outside) == JoinCells(BareCells(cells)) + Strip(u, Outside)
  {
    if |cells| == 1 {
      StripNodes(cells[0], u, true);
    } else {
      var more, bare := JoinCells(cells[1..]), BareCells(cells[1..]);
      assert BareCells(cells)[1..] == bare;
      Regroup3(PrintNodes(cells[0]), ",", more, u);
      StripNodes(cells[0], "," + (more + u), true);
      StripPlain(",", more + u);
      StripJoined(cells[1..], u);
      Regroup3(PrintNodes(BareNodes(cells[0])), ",", JoinCells(bare), Strip(u, Outside));
    }
  }

  lemma {:induction false} PrintJoined(cells: seq<seq<Node>>)
    requires cells != [] && AllBare(cells)
    ensures PrintNodes(JoinNodes(cells)) == JoinCells(cells) && NodesOk(JoinNodes(cells), false)
  {
    NodesLoosen(cells[0]);
    if |cells| > 1 {
      var more := JoinNodes(cells[1..]);
      PrintJoined(cells[1..]);
      PrintAppend(cells[0], [Other(',')] + more);
      assert ([Other(',')] + more)[0] == Other(',') && ([Other(',')] + more)[1..] == more;
      assert NodeOk(Other(','), false);
    }
  }

  /** An array of commented cells is read as the array of its stripped cells. */
  lemma JoinedRead(cells: seq<seq<Node>>)
    requires cells != [] && AllWritten(cells)
    ensures ReadsAs(JoinCells(cells), JoinCells(BareCells(cells)))
  {
    var body, bare := JoinCells(cells), JoinCells(BareCells(cells));
    BareCellsOk(cells);
    PrintJoined(BareCells(cells));
    forall u ensures Strip(body + ("]" + u), Outside) == bare + ("]" + Strip(u, Outside)) {
      StripJoined(cells, "]" + u);
      StripPlain("]", u);
    }
    forall u ensures Body(InBrackets(bare, u)) == Some(bare) { BodyOfNested(JoinNodes(BareCells(cells)), u); }
  }

  lemma BareIsBare(cells: seq<seq<Node>>, bare: string)
    requires cells != [] && AllWritten(cells) && bare == JoinCells(BareCells(cells))
    ensures Strip(JoinCells(cells), Outside) == bare && Strip(bare, Outside) == bare
  {
    StripJoined(cells, "");
    assert JoinCells(cells) + "" == JoinCells(cells) && bare + "" == bare;
    StripIdempotent(JoinCells(cells), Outside);
  }

  // ---- Reading one row ----

  lemma {:induction false} TrimEndOf(u: string, y: string)
    requires AllSpace(y) && u != [] && !Space(u[|u| - 1])
    ensures TrimEnd(u + y) == u
    decreases |y|
  {
    if y == [] {
      assert u + y == u;
    } else {
      assert (u + y)[..|u + y| - 1] == u + y[..|y| - 1];
      TrimEndOf(u, y[..|y| - 1]);
    }
  }

  /** Taking the brackets off a row leaves what is between them. */
  lemma RowUnwrapped(x: string, j: string, y: string)
    requires AllSpace(x) && AllSpace(y)
    ensures DropClose(DropOpen(x + ("[" + (j + ("]" + y))))) == j
  {
    AfterSpacesOf(x, "[" + (j + ("]" + y)));
    assert ("[" + (j + ("]" + y)))[1..] == j + ("]" + y);
    Regroup(j, "]", y);
    TrimEndOf(j + "]", y);
    assert (j + "]")[..|j|] == j;
  }

  lemma {:induction false} FilledAreKept(cells: seq<seq<Node>>)
    requires AllBare(cells)
    ensures Collect(Kept, CellPrints(cells)) == CellPrints(Filled(cells))
  {
    if cells == [] {
    } else {
      var c := cells[0];
      PaddingIsSpace(c);
      FilledAreKept(cells[1..]);
      assert CellPrints(cells)[1..] == CellPrints(cells[1..]);
      if Padding(c) {
        assert Filled(cells) == Filled(cells[1..]);
      } else {
        assert ([c] + Filled(cells[1..]))[1..] == Filled(cells[1..]);
      }
    }
  }

  lemma {:induction false} CellPrintAt(cells: seq<seq<Node>>, k: nat)
    ensures At(CellPrints(cells), k) == if k < |cells| then PrintNodes(cells[k]) else ""
  {
    if cells == [] {
    } else if k > 0 {
      CellPrintAt(cells[1..], k - 1);
    }
  }

  /** The asked column of a stripped row is its cell there, blank cells not counted, or nothing beyond the last one. */
  lemma ColumnOfRow(x: string, cells: seq<seq<Node>>, y: string, k: nat)
    requires AllSpace(x) && AllSpace(y) && cells != [] && AllBare(cells)
    ensures Column(x + ("[" + (JoinCells(cells) + ("]" + y))), Some(k)) ==
            if k < |Filled(cells)| then PrintNodes(Filled(cells)[k]) else ""
  {
    RowUnwrapped(x, JoinCells(cells), y);
    SplitNested(cells);
    FilledAreKept(cells);
    CellPrintAt(Filled(cells), k);
  }

  // ---- Reading a written row ----

  lemma {:induction false} BareAppend(a: seq<Node>, b: seq<Node>)
    ensures BareNodes(a + b) == BareNodes(a) + BareNodes(b)
  {
    if a == [] {
      assert a + b == b;
    } else {
      assert (a + b)[0] == a[0] && (a + b)[1..] == a[1..] + b;
      BareAppend(a[1..], b);
    }
  }

  lemma BareOne(n: Node)
    ensures BareNodes([n]) == BareNode(n)
  {
    assert [n][1..] == [];
  }

  lemma {:induction false} BareJoined(cells: seq<seq<Node>>)
    requires cells != []
    ensures BareNodes(JoinNodes(cells)) == JoinNodes(BareCells(cells))
  {
    if |cells| > 1 {
      var comma, more := [Other(',')], JoinNodes(cells[1..]);
      BareJoined(cells[1..]);
      BareAppend(cells[0], comma + more);
      BareAppend(comma, more);
      BareOne(Other(','));
      assert BareCells(cells)[1..] == BareCells(cells[1..]);
    }
  }

  lemma PaddingBare(ns: seq<Node>)
    requires Padding(ns) && Written(ns, true)
    ensures AllSpace(PrintNodes(BareNodes(ns)))
  {
    BareItem(ns, true);
    BareOk(ns, true);
    PaddingIsSpace(BareNodes(ns));
  }

  /** The text of a row once stripped. */
  lemma RowBare(b: seq<Node>, cells: seq<seq<Node>>, a: seq<Node>)
    requires RowWritten(TableRow(b, cells, a))
    ensures PrintNodes(BareNodes(RowNodes(TableRow(b, cells, a)))) ==
            PrintNodes(BareNodes(b)) + ("[" + (JoinCells(BareCells(cells)) + ("]" + PrintNodes(BareNodes(a)))))
  {
    var group, bare := Group('[', JoinNodes(cells), ']'), JoinNodes(BareCells(cells));
    BareAppend(b, [group] + a);
    BareAppend([group], a);
    BareOne(group);
    BareJoined(cells);
    BareCellsOk(cells);
    PrintJoined(BareCells(cells));
    PrintAppend(BareNodes(b), [Group('[', bare, ']')] + BareNodes(a));
    PrintAppend([Group('[', bare, ']')], BareNodes(a));
    PrintOne(Group('[', bare, ']'));
    Regroup3("[", PrintNodes(bare), "]", PrintNodes(BareNodes(a)));
  }

  lemma {:induction false} BareFilled(cells: seq<seq<Node>>)
    requires AllWritten(cells)
    ensures Filled(BareCells(cells)) == BareCells(Filled(cells))
  {
    if cells == [] {
    } else {
      BareItem(cells[0], true);
      BareFilled(cells[1..]);
      assert BareCells(cells)[1..] == BareCells(cells[1..]);
    }
  }

  lemma {:induction false} FilledWritten(cells: seq<seq<Node>>)
    requires AllWritten(cells)
    ensures AllWritten(Filled(cells))
  {
    if cells == [] {
    } else {
      FilledWritten(cells[1..]);
    }
  }

  lemma ReadFilled(cells: seq<seq<Node>>, k: nat)
    requires AllWritten(cells)
    ensures var f := Filled(BareCells(cells));
            Read(if k < |f| then PrintNodes(f[k]) else "") == if k < |Filled(cells)| then ItemOf(Filled(cells)[k]) else []
  {
    BareFilled(cells);
    FilledWritten(cells);
    if k < |Filled(cells)| {
      var c := Filled(cells)[k];
      BareOk(c, true);
      ReadNodes(BareNodes(c));
      BareItem(c, true);
    }
  }

  lemma RowIsKept(x: string, v: string)
    ensures Kept(x + ("[" + v)) == [x + ("[" + v)]
  {
    assert !Space((x + ("[" + v))[|x|]);
  }

  /** Reading the asked column of a written row gives its item there. */
  lemma ReadRow(b: seq<Node>, cells: seq<seq<Node>>, a: seq<Node>, k: nat, t: string)
    requires RowWritten(TableRow(b, cells, a)) && t == PrintNodes(BareNodes(RowNodes(TableRow(b, cells, a))))
    ensures Kept(t) == [t] && Read(Column(t, Some(k))) == RowItem(TableRow(b, cells, a), k)
  {
    var x, y := PrintNodes(BareNodes(b)), PrintNodes(BareNodes(a));
    var j := JoinCells(BareCells(cells));
    RowBare(b, cells, a);
    RowIsKept(x, j + ("]" + y));
    PaddingBare(b);
    PaddingBare(a);
    BareCellsOk(cells);
    ColumnOfRow(x, BareCells(cells), y, k);
    ReadFilled(cells, k);
  }

  // ---- Reading the table ----

  lemma {:induction false} ReadTable(rows: seq<TableRow>, k: nat)
    requires TableWritten(rows)
    ensures ReadRows(Collect(Kept, CellPrints(BareCells(TableNodes(rows)))), Some(k)) == ColumnItems(rows, k)
  {
    if rows == [] {
    } else {
      var r := rows[0];
      ReadTable(rows[1..], k);
      var t := PrintNodes(BareNodes(RowNodes(r)));
      if r.Empty? { PaddingBare(r.pad); } else { ReadRow(r.before, r.cells, r.after, k, t); }
      ReadFirst(t, CellPrints(BareCells(TableNodes(rows[1..]))), k, RowItem(r, k));
    }
  }

  lemma ReadFirst(t: string, more: seq<string>, k: nat, item: seq<string>)
    requires if AllSpace(t) then item == [] else Read(Column(t, Some(k))) == item
    ensures ReadRows(Collect(Kept, [t] + more), Some(k)) == item + ReadRows(Collect(Kept, more), Some(k))
  {
    assert ([t] + more)[1..] == more;
    if AllSpace(t) {
      assert Collect(Kept, [t] + more) == Collect(Kept, more);
    } else {
      assert ([t] + Collect(Kept, more))[1..] == Collect(Kept, more);
    }
  }

  /** Reading one column of an array of rows gives, in order, the items that stand in that column, whatever is
      commented in the array. */
  lemma TupleItems(rows: seq<TableRow>, k: nat, body: string)
    requires rows != [] && TableWritten(rows)
    requires body == JoinCells(TableNodes(rows)) || body == JoinCells(BareCells(TableNodes(rows)))
    ensures ItemsOfBody(body, Some(k)) == if ColumnItems(rows, k) == [] then None else Some(ColumnItems(rows, k))
  {
    var cells := TableNodes(rows);
    TableIsWritten(rows);
    BareIsBare(cells, JoinCells(BareCells(cells)));
    BareCellsOk(cells);
    SplitNested(BareCells(cells));
    ReadTable(rows, k);
  }

  /** A column of a commented table, declared anywhere in a file, reads back as its items. */
  lemma ColumnRoundTrip(before: string, kw: string, g1: Gap, name: string, g2: Gap, g3: Gap, rows: seq<TableRow>,
                        rest: string, k: nat, d: string)
    requires Keyword(kw) && Identifier(name) && rows != [] && TableWritten(rows)
    requires g1 != [] && GapOk(g1) && GapOk(g2) && GapOk(g3)
    requires d == Declaration(kw, g1, name, g2, g3, JoinCells(TableNodes(rows)), rest) && FirstDeclared(before, d, name)
    ensures ArrayItems(before + d, name, Some(k)) == if ColumnItems(rows, k) == [] then None else Some(ColumnItems(rows, k))
  {
    var cells := TableNodes(rows);
    var bare := JoinCells(BareCells(cells));
    TableIsWritten(rows);
    JoinedRead(cells);
    ReadDeclaration(before, kw, g1, name, g2, g3, JoinCells(cells), bare, rest, Some(k));
    TupleItems(rows, k, bare);
  }
}
