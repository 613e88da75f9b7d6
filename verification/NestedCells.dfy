/** Bracket matching and splitting over nested code: a cell may hold calls, objects and arrays of its own. */
module NestedCells {
  import opened Options
  import opened CommentStripper
  import opened LiteralList
  import opened LiteralRoundTrip

  // ---- Nested code ----

  /** Code as a tree: a character, a quoted text, a bracketed group or, before stripping, a comment. */
  datatype Node =
    | Other(c: char)
    | Str(m: char, s: string)
    | Group(start: char, inner: seq<Node>, end: char)
    | Note(p: Piece)

  /** Stripped code. At the top level of a cell a comma would end it. */
  predicate NodeOk(n: Node, top: bool) {
    match n
    case Other(c) => c !in {'\'', '"', '`', '[', '{', '(', ']', '}', ')'} && (top ==> c != ',')
    case Str(m, s) => ClosedLiteral(m, s)
    case Group(a, inner, z) => Brackets(a, z) && NodesOk(inner, false)
    case Note(_) => false
  }

  predicate Brackets(a: char, z: char) { a in {'[', '{', '('} && z in {']', '}', ')'} && (a == '[' <==> z == ']') }

  predicate NodesOk(ns: seq<Node>, top: bool) { forall n :: n in ns ==> NodeOk(n, top) }

  function PrintNode(n: Node): string {
    match n
    case Other(c) => [c]
    case Str(m, s) => Quoting(m, s)
    case Group(a, inner, z) => [a] + (PrintNodes(inner) + [z])
    case Note(p) => PrintPiece(p)
  }

  function PrintNodes(ns: seq<Node>): string {
    if ns == [] then "" else PrintNode(ns[0]) + PrintNodes(ns[1..])
  }

  // ---- Splitting ----

  lemma {:induction false} SplitNode(n: Node, u: string, cell: string, depth: nat)
    requires NodeOk(n, depth == 0)
    ensures Split(PrintNode(n) + u, cell, depth, Code) == Split(u, cell + PrintNode(n), depth, Code)
    decreases n, 0
  {
    match n
    case Other(c) => SplitChar(c, u, cell, depth, Code);
    case Str(m, s) => SplitString(m, s, u, cell, depth);
    case Group(a, inner, z) =>
      var p := PrintNodes(inner);
      Regroup3([a], p, [z], u);
      SplitChar(a, p + ([z] + u), cell, depth, Code);
      SplitNodes(inner, [z] + u, cell + [a], depth + 1);
      SplitChar(z, u, cell + [a] + p, depth + 1, Code);
      assert cell + [a] + p + [z] == cell + ([a] + (p + [z]));
  }

  lemma {:induction false} SplitNodes(ns: seq<Node>, u: string, cell: string, depth: nat)
    requires NodesOk(ns, depth == 0)
    ensures Split(PrintNodes(ns) + u, cell, depth, Code) == Split(u, cell + PrintNodes(ns), depth, Code)
    decreases ns, 1
  {
    if ns == [] {
      assert PrintNodes(ns) + u == u && cell + PrintNodes(ns) == cell;
    } else {
      Regroup(PrintNode(ns[0]), PrintNodes(ns[1..]), u);
      SplitNode(ns[0], PrintNodes(ns[1..]) + u, cell, depth);
      SplitNodes(ns[1..], u, cell + PrintNode(ns[0]), depth);
      Regroup(cell, PrintNode(ns[0]), PrintNodes(ns[1..]));
    }
  }

  function JoinCells(cells: seq<seq<Node>>): string
    requires cells != []
  {
    if |cells| == 1 then PrintNodes(cells[0]) else PrintNodes(cells[0]) + ("," + JoinCells(cells[1..]))
  }

  function CellPrints(cells: seq<seq<Node>>): seq<string> {
    if cells == [] then [] else [PrintNodes(cells[0])] + CellPrints(cells[1..])
  }

  /** Cells joined by commas are split apart exactly, whatever commas, brackets and quotes they hold inside. */
  lemma {:induction false} SplitNested(cells: seq<seq<Node>>)
    requires cells != [] && forall c :: c in cells ==> NodesOk(c, true)
    ensures Split(JoinCells(cells), "", 0, Code) == CellPrints(cells)
  {
    var c := PrintNodes(cells[0]);
    assert "" + c == c;
    if |cells| == 1 {
      assert c + "" == c && CellPrints(cells[1..]) == [];
      SplitNodes(cells[0], "", "", 0);
    } else {
      var more := JoinCells(cells[1..]);
      SplitNodes(cells[0], "," + more, "", 0);
      assert ("," + more)[1..] == more;
      SplitNested(cells[1..]);
    }
  }

  // ---- Matching the bracket ----

  lemma {:induction false} EndNode(n: Node, u: string, depth: nat)
    requires NodeOk(n, false) && depth > 0
    ensures BodyEnd(PrintNode(n) + u, depth, Code) == Plus(BodyEnd(u, depth, Code), |PrintNode(n)|)
    decreases n, 0
  {
    match n
    case Other(c) => EndChar(c, u, depth, Code);
    case Str(m, s) => EndString(m, s, u, depth);
    case Group(a, inner, z) =>
      var p := PrintNodes(inner);
      var within := if a == '[' then depth + 1 else depth;
      EndNodes(inner, [z] + u, within);
      EndGroup(a, p, z, u, depth, within);
  }

  lemma EndGroup(a: char, p: string, z: char, u: string, depth: nat, within: nat)
    requires Brackets(a, z) && depth > 0
    requires within == if a == '[' then depth + 1 else depth
    requires BodyEnd(p + ([z] + u), within, Code) == Plus(BodyEnd([z] + u, within, Code), |p|)
    ensures BodyEnd([a] + (p + [z]) + u, depth, Code) == Plus(BodyEnd(u, depth, Code), |p| + 2)
  {
    Regroup3([a], p, [z], u);
    EndChar(a, p + ([z] + u), depth, Code);
    EndChar(z, u, within, Code);
  }

  lemma {:induction false} EndNodes(ns: seq<Node>, u: string, depth: nat)
    requires NodesOk(ns, false) && depth > 0
    ensures BodyEnd(PrintNodes(ns) + u, depth, Code) == Plus(BodyEnd(u, depth, Code), |PrintNodes(ns)|)
    decreases ns, 1
  {
    if ns == [] {
      assert PrintNodes(ns) + u == u;
    } else {
      var head, tail := PrintNode(ns[0]), PrintNodes(ns[1..]);
      Regroup(head, tail, u);
      EndNode(ns[0], tail + u, depth);
      EndNodes(ns[1..], u, depth);
    }
  }

  /** The body of an array of any nested code is exactly that code, whatever follows. */
  lemma BodyOfNested(ns: seq<Node>, u: string)
    requires NodesOk(ns, false)
    ensures Body("[" + (PrintNodes(ns) + ("]" + u))) == Some(PrintNodes(ns))
  {
    EndNodes(ns, "]" + u, 1);
    BodyOfPassed(PrintNodes(ns), u);
  }

  // ---- Comments ----

  /** After a slash this would open a comment. */
  predicate Opens(n: Node) { n == Other('/') || n == Other('*') || n.Note? }

  /** Code before stripping: comments anywhere, and no comment that is not one of them. */
  predicate NodeWritten(n: Node, top: bool) {
    match n
    case Other(_) => NodeOk(n, top)
    case Str(_, _) => NodeOk(n, top)
    case Group(a, inner, z) => Brackets(a, z) && Written(inner, false)
    case Note(p) => !p.White? && PieceOk(p)
  }

  predicate Written(ns: seq<Node>, top: bool) {
    && (forall n :: n in ns ==> NodeWritten(n, top))
    && (forall i :: 0 <= i < |ns| - 1 && ns[i] == Other('/') ==> !Opens(ns[i + 1]))
  }

  function Others(t: string): seq<Node> { if t == [] then [] else [Other(t[0])] + Others(t[1..]) }

  /** The code once comments are blanked. */
  function BareNode(n: Node): seq<Node> {
    match n
    case Other(_) => [n]
    case Str(_, _) => [n]
    case Group(a, inner, z) => [Group(a, BareNodes(inner), z)]
    case Note(p) => Others(BlankPiece(p))
  }

  function BareNodes(ns: seq<Node>): seq<Node> {
    if ns == [] then [] else BareNode(ns[0]) + BareNodes(ns[1..])
  }

  lemma {:induction false} PrintAppend(a: seq<Node>, b: seq<Node>)
    ensures PrintNodes(a + b) == PrintNodes(a) + PrintNodes(b)
  {
    if a == [] {
      assert a + b == b;
    } else {
      assert (a + b)[0] == a[0] && (a + b)[1..] == a[1..] + b;
      PrintAppend(a[1..], b);
      Regroup(PrintNode(a[0]), PrintNodes(a[1..]), PrintNodes(b));
    }
  }

  lemma PrintOne(n: Node)
    ensures PrintNodes([n]) == PrintNode(n)
  {
    assert [n][1..] == [] && PrintNode(n) + "" == PrintNode(n);
  }

  lemma {:induction false} PrintOthers(t: string)
    requires AllSpace(t)
    ensures PrintNodes(Others(t)) == t && NodesOk(Others(t), true) && Padding(Others(t))
  {
    if t == [] {
    } else {
      PrintOthers(t[1..]);
      assert [t[0]] + t[1..] == t;
      assert NodeOk(Other(t[0]), true);
    }
  }

  lemma StripSlash(u: string)
    requires AfterSlash(u)
    ensures Strip("/" + u, Outside) == "/" + Strip(u, Outside)
  {
    StripChar('/', u, Outside, Outside);
  }

  lemma StripGroup(a: char, p: string, q: string, z: char, u: string)
    requires Brackets(a, z) && Strip(p + ([z] + u), Outside) == q + Strip([z] + u, Outside)
    ensures Strip([a] + (p + [z]) + u, Outside) == [a] + (q + [z]) + Strip(u, Outside)
  {
    Regroup3([a], p, [z], u);
    StripPlain([a], p + ([z] + u));
    StripPlain([z], u);
    Regroup3([a], q, [z], Strip(u, Outside));
  }

  lemma {:induction false} StripNode(n: Node, u: string, top: bool)
    requires NodeWritten(n, top) && (n == Other('/') ==> AfterSlash(u))
    ensures Strip(PrintNode(n) + u, Outside) == PrintNodes(BareNode(n)) + Strip(u, Outside)
    decreases n, 0
  {
    match n
    case Other(c) =>
      PrintOne(n);
      if c == '/' { StripSlash(u); } else { StripPlain([c], u); }
    case Str(m, s) =>
      PrintOne(n);
      Regroup3([m], s, [m], u);
      StringSurvives(m, s, u);
      Regroup3([m], s, [m], Strip(u, Outside));
    case Group(a, inner, z) =>
      PrintOne(BareNode(n)[0]);
      StripNodes(inner, [z] + u, false);
      StripGroup(a, PrintNodes(inner), PrintNodes(BareNodes(inner)), z, u);
    case Note(p) =>
      StripPiece(p, u);
      BlankPieceIsSpace(p);
      PrintOthers(BlankPiece(p));
  }

  /** What follows the first of some nodes does not make a comment of it. */
  lemma SlashBefore(ns: seq<Node>, u: string, top: bool)
    requires Written(ns, top) && AfterSlash(u) && ns != [] && ns[0] == Other('/')
    ensures AfterSlash(PrintNodes(ns[1..]) + u)
  {
    if |ns| > 1 {
      var n := ns[1];
      assert n in ns && NodeWritten(n, top) && !Opens(n);
      assert ns[1..][0] == n && PrintNode(n) != [];
    }
  }

  lemma TailWritten(ns: seq<Node>, top: bool)
    requires Written(ns, top) && ns != []
    ensures NodeWritten(ns[0], top) && Written(ns[1..], top)
  {
    assert ns[0] in ns;
    forall n | n in ns[1..] ensures NodeWritten(n, top) { assert n in ns; }
    forall i | 0 <= i < |ns[1..]| - 1 && ns[1..][i] == Other('/') ensures !Opens(ns[1..][i + 1]) {
      assert ns[i + 1] == Other('/');
    }
  }

  lemma {:induction false} StripNodes(ns: seq<Node>, u: string, top: bool)
    requires Written(ns, top) && AfterSlash(u)
    ensures Strip(PrintNodes(ns) + u, Outside) == PrintNodes(BareNodes(ns)) + Strip(u, Outside)
    decreases ns, 1
  {
    if ns == [] {
      assert PrintNodes(ns) + u == u;
    } else {
      var more := PrintNodes(ns[1..]);
      TailWritten(ns, top);
      if ns[0] == Other('/') { SlashBefore(ns, u, top); }
      Regroup(PrintNode(ns[0]), more, u);
      StripNode(ns[0], more + u, top);
      StripNodes(ns[1..], u, top);
      PrintAppend(BareNode(ns[0]), BareNodes(ns[1..]));
      Regroup(PrintNodes(BareNode(ns[0])), PrintNodes(BareNodes(ns[1..])), Strip(u, Outside));
    }
  }

  lemma {:induction false} BareNodeOk(n: Node, top: bool)
    requires NodeWritten(n, top)
    ensures NodesOk(BareNode(n), top)
    decreases n, 0
  {
    match n
    case Group(a, inner, z) => BareOk(inner, false);
    case Note(p) =>
      BlankPieceIsSpace(p);
      PrintOthers(BlankPiece(p));
      if !top { NodesLoosen(BareNode(n)); }
    case _ =>
  }

  lemma {:induction false} BareOk(ns: seq<Node>, top: bool)
    requires Written(ns, top)
    ensures NodesOk(BareNodes(ns), top)
    decreases ns, 1
  {
    if ns == [] {
    } else {
      TailWritten(ns, top);
      BareNodeOk(ns[0], top);
      BareOk(ns[1..], top);
    }
  }

  lemma NodesLoosen(ns: seq<Node>)
    requires NodesOk(ns, true)
    ensures NodesOk(ns, false)
  {
    forall n | n in ns ensures NodeOk(n, false) { assert NodeOk(n, true); }
  }

  // ---- Reading one cell ----

  /** White space or a comment. */
  predicate Pad(n: Node) { n.Note? || (n.Other? && Space(n.c)) }

  predicate Padding(ns: seq<Node>) { forall i :: 0 <= i < |ns| ==> Pad(ns[i]) }

  /** The item of a cell that is one quoted text without marks, comments and white space aside. */
  function ItemOf(cell: seq<Node>): seq<string> {
    if cell == [] then []
    else if Pad(cell[0]) then ItemOf(cell[1..])
    else if cell[0].Str? && NoMarks(cell[0].s) && Padding(cell[1..]) then [cell[0].s]
    else []
  }

  lemma AllSpaceBoth(a: string, b: string)
    ensures AllSpace(a + b) <==> AllSpace(a) && AllSpace(b)
  {
    if AllSpace(a + b) {
      forall i | 0 <= i < |a| ensures Space(a[i]) { assert Space((a + b)[i]); }
      forall i | 0 <= i < |b| ensures Space(b[i]) { assert Space((a + b)[|a| + i]); }
    }
  }

  lemma PaddingByHead(ns: seq<Node>)
    requires ns != []
    ensures Padding(ns) <==> Pad(ns[0]) && Padding(ns[1..])
  {
    assert forall i :: 0 <= i < |ns| - 1 ==> ns[1..][i] == ns[i + 1];
  }

  lemma {:induction false} PaddingIsSpace(ns: seq<Node>)
    requires NodesOk(ns, true)
    ensures AllSpace(PrintNodes(ns)) <==> Padding(ns)
  {
    if ns == [] {
    } else {
      var n, head, tail := ns[0], PrintNode(ns[0]), PrintNodes(ns[1..]);
      assert NodeOk(n, true);
      PaddingIsSpace(ns[1..]);
      PaddingByHead(ns);
      AllSpaceBoth(head, tail);
      assert AllSpace(head) ==> Space(head[0]);
    }
  }

  /** A quoted text with a mark in it is no literal. */
  lemma MarkedIsNone(m: char, s: string, y: string)
    requires QuoteMark(m) && !NoMarks(s)
    ensures Literal(Quoting(m, s) + y) == None
  {
    var t := Quoting(m, s) + y;
    QuotingParts(m, s, y);
    var n := MarkAt(t[1..]);
    assert t[1..][..|s|] == s;
    assert n < |s|;
    assert t[1 + |s|] == m && t[2 + n..][|s| - 1 - n] == m;
  }

  lemma ReadText(m: char, s: string, y: string)
    requires QuoteMark(m)
    ensures Read(Quoting(m, s) + y) == if NoMarks(s) && AllSpace(y) then [s] else []
  {
    if NoMarks(s) {
      MarkAtOf(s, m, y);
      QuotingParts(m, s, y);
    } else {
      MarkedIsNone(m, s, y);
    }
  }

  lemma ReadSpace(c: char, t: string)
    requires Space(c)
    ensures Read([c] + t) == Read(t)
  {
    assert ([c] + t)[1..] == t;
  }

  /** Reading a stripped cell gives its item. */
  lemma {:induction false} ReadNodes(cell: seq<Node>)
    requires NodesOk(cell, true)
    ensures Read(PrintNodes(cell)) == ItemOf(cell)
  {
    if cell == [] {
    } else {
      var n, tail := cell[0], PrintNodes(cell[1..]);
      assert NodeOk(n, true);
      if Pad(n) {
        ReadNodes(cell[1..]);
        ReadSpace(n.c, tail);
      } else if n.Str? {
        PaddingIsSpace(cell[1..]);
        ReadText(n.m, n.s, tail);
      } else {
        assert (PrintNode(n) + tail)[0] == PrintNode(n)[0];
      }
    }
  }

  lemma {:induction false} ItemAfterPadding(a: seq<Node>, b: seq<Node>)
    requires Padding(a)
    ensures ItemOf(a + b) == ItemOf(b) && (Padding(a + b) <==> Padding(b))
  {
    if a == [] {
      assert a + b == b;
    } else {
      assert (a + b)[1..] == a[1..] + b;
      ItemAfterPadding(a[1..], b);
      assert Padding(a + b) ==> forall i :: 0 <= i < |b| ==> (a + b)[|a| + i] == b[i];
    }
  }

  lemma BareNodeParts(n: Node, top: bool)
    requires NodeWritten(n, top)
    ensures if Pad(n) then Padding(BareNode(n)) else |BareNode(n)| == 1 && !Pad(BareNode(n)[0])
  {
    if n.Note? {
      BlankPieceIsSpace(n.p);
      PrintOthers(BlankPiece(n.p));
    }
  }

  /** Blanking comments changes neither the item of a cell nor whether it is blank. */
  lemma {:induction false} BareItem(cell: seq<Node>, top: bool)
    requires Written(cell, top)
    ensures ItemOf(BareNodes(cell)) == ItemOf(cell) && (Padding(BareNodes(cell)) <==> Padding(cell))
  {
    if cell == [] {
    } else {
      var head, tail := BareNode(cell[0]), BareNodes(cell[1..]);
      TailWritten(cell, top);
      BareNodeParts(cell[0], top);
      BareItem(cell[1..], top);
      PaddingByHead(cell);
      if Pad(cell[0]) {
        ItemAfterPadding(head, tail);
      } else {
        assert (head + tail)[0] == head[0] && (head + tail)[1..] == tail;
      }
    }
  }
}
