/** Printing a list as a declaration with comments anywhere between its tokens, and reading it back. */
module LiteralRoundTrip {
  import opened Options
  import opened CommentStripper
  import opened LiteralList

  // ---- Printed declarations ----

  /** What may stand between two tokens. */
  datatype Piece = White(c: char) | Line(s: string) | Block(s: string)

  type Gap = seq<Piece>

  predicate PieceOk(p: Piece) {
    match p
    case White(c) => Space(c)
    case Line(s) => '\n' !in s
    case Block(s) => forall i :: 0 <= i < |s| - 1 ==> !(s[i] == '*' && s[i + 1] == '/')
  }

  predicate GapOk(g: Gap) { forall i :: 0 <= i < |g| ==> PieceOk(g[i]) }

  function PrintPiece(p: Piece): string {
    match p
    case White(c) => [c]
    case Line(s) => "//" + s + "\n"
    case Block(s) => "/*" + s + "*/"
  }

  function PrintGap(g: Gap): string {
    if g == [] then "" else PrintPiece(g[0]) + PrintGap(g[1..])
  }

  /** A piece once comments are blanked. */
  function BlankPiece(p: Piece): string {
    match p
    case White(c) => [c]
    case Line(s) => Blank("//" + s) + "\n"
    case Block(s) => Blank("/*" + s + "*/")
  }

  function BlankGap(g: Gap): string {
    if g == [] then "" else BlankPiece(g[0]) + BlankGap(g[1..])
  }

  /** One cell of the array: a blank one, or one item in quotes. */
  datatype Cell = Hole(gap: Gap) | Item(before: Gap, mark: char, text: string, after: Gap)

  predicate EndsInSlash(s: string) { s != [] && s[|s| - 1] == '\\' }

  /** An item is read as it is written between its marks: it holds no mark and does not end in a backslash. */
  predicate ItemText(s: string) { NoMarks(s) && !EndsInSlash(s) }

  predicate CellOk(c: Cell) {
    match c
    case Hole(g) => GapOk(g)
    case Item(b, m, s, a) => GapOk(b) && QuoteMark(m) && ItemText(s) && GapOk(a)
  }

  predicate CellsOk(cells: seq<Cell>) { forall i :: 0 <= i < |cells| ==> CellOk(cells[i]) }

  function Quoting(m: char, s: string): string { [m] + (s + [m]) }

  function PrintCell(c: Cell): string {
    match c
    case Hole(g) => PrintGap(g)
    case Item(b, m, s, a) => PrintGap(b) + (Quoting(m, s) + PrintGap(a))
  }

  function BlankCell(c: Cell): string {
    match c
    case Hole(g) => BlankGap(g)
    case Item(b, m, s, a) => BlankGap(b) + (Quoting(m, s) + BlankGap(a))
  }

  function PrintCells(cells: seq<Cell>): string
    requires cells != []
  {
    if |cells| == 1 then PrintCell(cells[0]) else PrintCell(cells[0]) + ("," + PrintCells(cells[1..]))
  }

  function BlankCells(cells: seq<Cell>): string
    requires cells != []
  {
    if |cells| == 1 then BlankCell(cells[0]) else BlankCell(cells[0]) + ("," + BlankCells(cells[1..]))
  }

  // ---- Stripping a printed declaration ----

  lemma StripLine(s: string, u: string)
    requires '\n' !in s
    ensures Strip("//" + s + "\n" + u, Outside) == Blank("//" + s) + "\n" + Strip(u, Outside)
  {
    var t := "//" + s + "\n" + u;
    var n := 2 + |s|;
    assert t[n] == '\n' && t[..n] == "//" + s && From(t, n + 1) == u;
    assert LineEnd(t) == n;
    StripByTurn(t, Outside, Turn(Blank("//" + s) + "\n", n + 1, Outside), u);
  }

  lemma {:induction false} BlockEndAt(s: string, u: string)
    requires PieceOk(Block(s))
    ensures BlockEnd(s + "*/" + u) == |s| + 2
  {
    var t := s + "*/" + u;
    if s != [] {
      assert t[1..] == s[1..] + "*/" + u;
      BlockEndAt(s[1..], u);
    }
  }

  lemma StripBlock(s: string, u: string)
    requires PieceOk(Block(s))
    ensures Strip("/*" + s + "*/" + u, Outside) == Blank("/*" + s + "*/") + Strip(u, Outside)
  {
    var t := "/*" + s + "*/" + u;
    var n := 4 + |s|;
    BlockEndAt(s, u);
    assert t[2..] == s + "*/" + u && t[..n] == "/*" + s + "*/" && From(t, n) == u;
    StripByTurn(t, Outside, Turn(Blank("/*" + s + "*/"), n, Outside), u);
  }

  lemma StripPiece(p: Piece, u: string)
    requires PieceOk(p)
    ensures Strip(PrintPiece(p) + u, Outside) == BlankPiece(p) + Strip(u, Outside)
  {
    match p
    case White(c) => StripPlain([c], u);
    case Line(s) => StripLine(s, u);
    case Block(s) => StripBlock(s, u);
  }

  lemma {:induction false} StripGap(g: Gap, u: string)
    requires GapOk(g)
    ensures Strip(PrintGap(g) + u, Outside) == BlankGap(g) + Strip(u, Outside)
  {
    if g == [] {
      assert PrintGap(g) + u == u;
    } else {
      Regroup(PrintPiece(g[0]), PrintGap(g[1..]), u);
      StripPiece(g[0], PrintGap(g[1..]) + u);
      StripGap(g[1..], u);
      Regroup(BlankPiece(g[0]), BlankGap(g[1..]), Strip(u, Outside));
    }
  }

  lemma Uncons(s: string, u: string)
    requires s != []
    ensures s + u == [s[0]] + (s[1..] + u)
  {
  }

  lemma {:induction false} ItemIsString(s: string, m: char)
    requires QuoteMark(m) && ItemText(s)
    ensures StringBody(s, m)
    decreases |s|
  {
    if s == [] {
    } else if s[0] == '\\' {
      ItemIsString(s[2..], m);
    } else {
      ItemIsString(s[1..], m);
    }
  }

  lemma StripItem(m: char, s: string, u: string)
    requires QuoteMark(m) && ItemText(s)
    ensures Strip(Quoting(m, s) + u, Outside) == Quoting(m, s) + Strip(u, Outside)
  {
    ItemIsString(s, m);
    Regroup3([m], s, [m], u);
    StringSurvives(m, s, u);
    Regroup3([m], s, [m], Strip(u, Outside));
  }

  lemma StripCell(c: Cell, u: string)
    requires CellOk(c)
    ensures Strip(PrintCell(c) + u, Outside) == BlankCell(c) + Strip(u, Outside)
  {
    match c
    case Hole(g) => StripGap(g, u);
    case Item(b, m, s, a) =>
      Regroup3(PrintGap(b), Quoting(m, s), PrintGap(a), u);
      StripGap(b, Quoting(m, s) + (PrintGap(a) + u));
      StripItem(m, s, PrintGap(a) + u);
      StripGap(a, u);
      Regroup3(BlankGap(b), Quoting(m, s), BlankGap(a), Strip(u, Outside));
  }

  lemma Regroup3(a: string, b: string, c: string, d: string)
    ensures a + (b + c) + d == a + (b + (c + d))
  {
  }

  lemma {:induction false} StripCells(cells: seq<Cell>, u: string)
    requires cells != [] && CellsOk(cells)
    ensures Strip(PrintCells(cells) + u, Outside) == BlankCells(cells) + Strip(u, Outside)
  {
    if |cells| == 1 {
      StripCell(cells[0], u);
    } else {
      var more := PrintCells(cells[1..]);
      Regroup3(PrintCell(cells[0]), ",", more, u);
      StripCell(cells[0], "," + (more + u));
      StripPlain(",", more + u);
      StripCells(cells[1..], u);
      Regroup3(BlankCell(cells[0]), ",", BlankCells(cells[1..]), Strip(u, Outside));
    }
  }

  // ---- Splitting and matching over stripped cells ----

  /** No mark, bracket or comma: the scanners pass over it. */
  predicate Calm(t: string) {
    forall i :: 0 <= i < |t| ==> !QuoteMark(t[i]) && !Opener(t[i]) && !Closer(t[i]) && t[i] != ','
  }

  lemma {:induction false} SplitCalm(a: string, u: string, cell: string, depth: int)
    requires Calm(a)
    ensures Split(a + u, cell, depth, Code) == Split(u, cell + a, depth, Code)
  {
    if a == [] {
      assert a + u == u && cell + a == cell;
    } else {
      Uncons(a, u);
      SplitChar(a[0], a[1..] + u, cell, depth, Code);
      SplitCalm(a[1..], u, cell + [a[0]], depth);
      assert cell + [a[0]] + a[1..] == cell + a;
    }
  }

  lemma SplitChar(c: char, u: string, cell: string, depth: int, mode: Mode)
    requires !Splits(mode, depth, c)
    ensures Split([c] + u, cell, depth, mode) == Split(u, cell + [c], Nesting(mode, depth, c), NextMode(mode, c))
  {
    assert ([c] + u)[1..] == u;
  }

  function Plus(o: Option<nat>, n: nat): Option<nat> {
    match o
    case None => None
    case Some(k) => Some(k + n)
  }

  lemma EndChar(c: char, u: string, depth: int, mode: Mode)
    requires !Closes(mode, depth, c)
    ensures BodyEnd([c] + u, depth, mode) == Plus(BodyEnd(u, NextDepth(mode, depth, c), NextMode(mode, c)), 1)
  {
    assert ([c] + u)[1..] == u;
  }

  // ---- String literals ----

  /** The mode a scanner is in after the text. */
  function ModeAfter(t: string, mode: Mode): Mode {
    if t == [] then mode else ModeAfter(t[1..], NextMode(mode, t[0]))
  }

  function Slashed(s: string, before: bool): bool { if s == [] then before else EndsInSlash(s) }

  /** Inside quotes the scanners pass over s: they stay inside, split nothing and count nothing. */
  ghost predicate Passes(m: char, s: string, u: string, cell: string, depth: int, before: bool, after: bool) {
    && ModeAfter(s + u, Quoted(m, before)) == ModeAfter(u, Quoted(m, after))
    && Split(s + u, cell, depth, Quoted(m, before)) == Split(u, cell + s, depth, Quoted(m, after))
    && BodyEnd(s + u, depth, Quoted(m, before)) == Plus(BodyEnd(u, depth, Quoted(m, after)), |s|)
  }

  /** One character that does not close the literal. */
  lemma PassChar(m: char, c: char, u: string, cell: string, depth: int, before: bool)
    requires c != m || before
    ensures Passes(m, [c], u, cell, depth, before, c == '\\')
  {
    assert ([c] + u)[1..] == u;
    SplitChar(c, u, cell, depth, Quoted(m, before));
    EndChar(c, u, depth, Quoted(m, before));
  }

  lemma PassBoth(m: char, a: string, b: string, u: string, cell: string, depth: int, x: bool, y: bool, z: bool)
    requires Passes(m, a, b + u, cell, depth, x, y) && Passes(m, b, u, cell + a, depth, y, z)
    ensures Passes(m, a + b, u, cell, depth, x, z)
  {
    Regroup(a, b, u);
    Regroup(cell, a, b);
  }

  lemma {:induction false} ScanInside(m: char, s: string, u: string, cell: string, depth: int, before: bool)
    requires QuoteMark(m) && StringBody(s, m)
    ensures Passes(m, s, u, cell, depth, before, Slashed(s, before))
    decreases |s|
  {
    if s == [] {
      assert s + u == u && cell + s == cell;
    } else if s[0] == '\\' {
      var a, b, rest := [s[0]], [s[1]], s[2..];
      PassChar(m, s[0], b + (rest + u), cell, depth, before);
      PassChar(m, s[1], rest + u, cell + a, depth, true);
      PassBoth(m, a, b, rest + u, cell, depth, before, true, s[1] == '\\');
      ScanInside(m, rest, u, cell + (a + b), depth, s[1] == '\\');
      PassBoth(m, a + b, rest, u, cell, depth, before, s[1] == '\\', Slashed(s, before));
      assert a + b + rest == s;
    } else {
      var a, rest := [s[0]], s[1..];
      PassChar(m, s[0], rest + u, cell, depth, before);
      ScanInside(m, rest, u, cell + a, depth, false);
      PassBoth(m, a, rest, u, cell, depth, before, false, Slashed(s, before));
      assert a + rest == s;
    }
  }

  /** The scanners close a string literal exactly when its last character is not a backslash. One that ends in an
      escaped backslash is closed for the comment stripper and still open for them. */
  lemma LiteralClosesIff(m: char, s: string)
    requires QuoteMark(m) && StringBody(s, m)
    ensures ModeAfter([m] + (s + [m]), Code) == Code <==> !EndsInSlash(s)
  {
    var t, end := [m] + (s + [m]), Quoted(m, EndsInSlash(s));
    assert t[1..] == s + [m];
    assert ModeAfter(t, Code) == ModeAfter(t[1..], Quoted(m, false));
    ScanInside(m, s, [m], "", 0, false);
    assert ModeAfter([m], end) == ModeAfter([m][1..], NextMode(end, m));
    assert [m][1..] == [];
  }

  /** The literal that holds one escaped backslash is one. */
  lemma EscapedBackslashStaysOpen()
    ensures StringBody("\\\\", '\'') && ModeAfter(['\''] + ("\\\\" + ['\'']), Code) != Code
  {
    assert "\\\\"[2..] == [];
    LiteralClosesIff('\'', "\\\\");
  }

  /** A literal the scanners close. */
  predicate ClosedLiteral(m: char, s: string) { QuoteMark(m) && StringBody(s, m) && !EndsInSlash(s) }

  lemma SplitString(m: char, s: string, u: string, cell: string, depth: int)
    requires ClosedLiteral(m, s)
    ensures Split(Quoting(m, s) + u, cell, depth, Code) == Split(u, cell + Quoting(m, s), depth, Code)
  {
    Regroup3([m], s, [m], u);
    SplitChar(m, s + ([m] + u), cell, depth, Code);
    ScanInside(m, s, [m] + u, cell + [m], depth, false);
    SplitChar(m, u, cell + [m] + s, depth, Quoted(m, false));
    assert cell + [m] + s + [m] == cell + ([m] + (s + [m]));
  }

  lemma EndString(m: char, s: string, u: string, depth: int)
    requires ClosedLiteral(m, s)
    ensures BodyEnd(Quoting(m, s) + u, depth, Code) == Plus(BodyEnd(u, depth, Code), |Quoting(m, s)|)
  {
    Regroup3([m], s, [m], u);
    EndChar(m, s + ([m] + u), depth, Code);
    ScanInside(m, s, [m] + u, "", depth, false);
    EndChar(m, u, depth, Quoted(m, false));
  }

  // ---- Stripped cells ----

  lemma {:induction false} BlankGapIsSpace(g: Gap)
    requires GapOk(g)
    ensures AllSpace(BlankGap(g))
  {
    if g == [] {
    } else {
      BlankPieceIsSpace(g[0]);
      BlankGapIsSpace(g[1..]);
    }
  }

  lemma BlankPieceIsSpace(p: Piece)
    requires PieceOk(p)
    ensures AllSpace(BlankPiece(p))
  {
  }

  lemma SplitItemCell(x: string, m: char, s: string, y: string, u: string, depth: int)
    requires Calm(x) && ClosedLiteral(m, s) && Calm(y)
    ensures Split(x + (Quoting(m, s) + y) + u, "", depth, Code) == Split(u, x + (Quoting(m, s) + y), depth, Code)
  {
    var q := Quoting(m, s);
    Regroup3(x, q, y, u);
    SplitCalm(x, q + (y + u), "", depth);
    assert "" + x == x;
    SplitString(m, s, y + u, x, depth);
    SplitCalm(y, u, x + q, depth);
    Regroup(x, q, y);
  }

  lemma SpaceIsCalm(t: string)
    requires AllSpace(t)
    ensures Calm(t)
  {
  }

  lemma SplitCell(c: Cell, u: string, depth: int)
    requires CellOk(c)
    ensures Split(BlankCell(c) + u, "", depth, Code) == Split(u, BlankCell(c), depth, Code)
  {
    match c
    case Hole(g) =>
      BlankGapIsSpace(g);
      SpaceIsCalm(BlankGap(g));
      SplitCalm(BlankGap(g), u, "", depth);
      assert "" + BlankGap(g) == BlankGap(g);
    case Item(b, m, s, a) =>
      BlankGapIsSpace(b);
      BlankGapIsSpace(a);
      SpaceIsCalm(BlankGap(b));
      SpaceIsCalm(BlankGap(a));
      ItemIsString(s, m);
      SplitItemCell(BlankGap(b), m, s, BlankGap(a), u, depth);
  }

  function CellTexts(cells: seq<Cell>): seq<string> {
    if cells == [] then [] else [BlankCell(cells[0])] + CellTexts(cells[1..])
  }

  lemma {:induction false} SplitCells(cells: seq<Cell>)
    requires cells != [] && CellsOk(cells)
    ensures Split(BlankCells(cells), "", 0, Code) == CellTexts(cells)
  {
    var c := BlankCell(cells[0]);
    if |cells| == 1 {
      assert c + "" == c && CellTexts(cells[1..]) == [];
      SplitCell(cells[0], "", 0);
    } else {
      var more := BlankCells(cells[1..]);
      SplitCell(cells[0], "," + more, 0);
      assert ("," + more)[1..] == more;
      SplitCells(cells[1..]);
    }
  }

  lemma {:induction false} EndCalm(a: string, u: string, depth: int)
    requires forall i :: 0 <= i < |a| ==> !QuoteMark(a[i]) && a[i] != '[' && a[i] != ']'
    ensures BodyEnd(a + u, depth, Code) == Plus(BodyEnd(u, depth, Code), |a|)
  {
    if a == [] {
      assert a + u == u;
    } else {
      Uncons(a, u);
      EndChar(a[0], a[1..] + u, depth, Code);
      EndCalm(a[1..], u, depth);
    }
  }

  lemma EndItemCell(x: string, m: char, s: string, y: string, u: string, depth: int)
    requires Calm(x) && ClosedLiteral(m, s) && Calm(y)
    ensures BodyEnd(x + (Quoting(m, s) + y) + u, depth, Code) ==
            Plus(BodyEnd(u, depth, Code), |x + (Quoting(m, s) + y)|)
  {
    var q := Quoting(m, s);
    Regroup3(x, q, y, u);
    EndCalm(x, q + (y + u), depth);
    EndString(m, s, y + u, depth);
    EndCalm(y, u, depth);
  }

  lemma EndCell(c: Cell, u: string, depth: int)
    requires CellOk(c)
    ensures BodyEnd(BlankCell(c) + u, depth, Code) == Plus(BodyEnd(u, depth, Code), |BlankCell(c)|)
  {
    match c
    case Hole(g) =>
      BlankGapIsSpace(g);
      SpaceIsCalm(BlankGap(g));
      EndCalm(BlankGap(g), u, depth);
    case Item(b, m, s, a) =>
      BlankGapIsSpace(b);
      BlankGapIsSpace(a);
      SpaceIsCalm(BlankGap(b));
      SpaceIsCalm(BlankGap(a));
      ItemIsString(s, m);
      EndItemCell(BlankGap(b), m, s, BlankGap(a), u, depth);
  }

  /** The matcher passes over t, counting nothing. */
  ghost predicate PassedOver(t: string, u: string, depth: int) {
    BodyEnd(t + u, depth, Code) == Plus(BodyEnd(u, depth, Code), |t|)
  }

  lemma PassedOverBoth(a: string, b: string, u: string, depth: int)
    requires PassedOver(a, b + u, depth) && PassedOver(b, u, depth)
    ensures PassedOver(a + b, u, depth)
  {
    Regroup(a, b, u);
  }

  lemma CommaPassedOver(c: Cell, more: string, u: string, depth: int)
    requires CellOk(c) && PassedOver(more, u, depth)
    ensures PassedOver(BlankCell(c) + ("," + more), u, depth)
  {
    EndCalm(",", more + u, depth);
    PassedOverBoth(",", more, u, depth);
    EndCell(c, "," + more + u, depth);
    PassedOverBoth(BlankCell(c), "," + more, u, depth);
  }

  lemma {:induction false} EndCells(cells: seq<Cell>, u: string, depth: int)
    requires cells != [] && CellsOk(cells)
    ensures PassedOver(BlankCells(cells), u, depth)
  {
    if |cells| == 1 {
      EndCell(cells[0], u, depth);
    } else {
      EndCells(cells[1..], u, depth);
      CommaPassedOver(cells[0], BlankCells(cells[1..]), u, depth);
    }
  }

  lemma CloseIsEnd(u: string)
    ensures BodyEnd("]" + u, 1, Code) == Some(0)
  {
    assert Closes(Code, 1, ("]" + u)[0]);
  }

  /** The body of an array is what stands between its brackets, if the matcher passes over it. */
  lemma BodyOfPassed(x: string, u: string)
    requires PassedOver(x, "]" + u, 1)
    ensures Body("[" + (x + ("]" + u))) == Some(x)
  {
    var t := "[" + (x + ("]" + u));
    CloseIsEnd(u);
    EndChar('[', x + ("]" + u), 0, Code);
    assert BodyEnd(t, 0, Code) == Some(|x| + 1);
    assert t[1..|x| + 1] == x;
  }

  /** The body of a stripped array is its cells. */
  lemma BodyOfCells(cells: seq<Cell>, u: string)
    requires cells != [] && CellsOk(cells)
    ensures Body("[" + (BlankCells(cells) + ("]" + u))) == Some(BlankCells(cells))
  {
    EndCells(cells, "]" + u, 1);
    BodyOfPassed(BlankCells(cells), u);
  }

  // ---- Reading the cells ----

  function ItemTexts(cells: seq<Cell>): seq<string> {
    if cells == [] then []
    else (match cells[0] case Hole(_) => [] case Item(_, _, s, _) => [s]) + ItemTexts(cells[1..])
  }

  lemma {:induction false} AfterSpacesOf(a: string, u: string)
    requires AllSpace(a) && u != [] && !Space(u[0])
    ensures AfterSpaces(a + u) == u
  {
    if a == [] {
      assert a + u == u;
    } else {
      Uncons(a, u);
      AfterSpacesOf(a[1..], u);
      assert (a + u)[1..] == a[1..] + u;
    }
  }

  lemma QuotingParts(m: char, s: string, y: string)
    ensures var t := Quoting(m, s) + y; t[1..] == s + ([m] + y) && t[1..1 + |s|] == s && t[2 + |s|..] == y && t[1 + |s|] == m
  {
  }

  lemma LiteralOf(x: string, m: char, s: string, y: string)
    requires AllSpace(x) && QuoteMark(m) && NoMarks(s) && AllSpace(y)
    ensures Literal(x + (Quoting(m, s) + y)) == Some(s)
  {
    AfterSpacesOf(x, Quoting(m, s) + y);
    MarkAtOf(s, m, y);
    QuotingParts(m, s, y);
  }

  lemma {:induction false} SpacesSkipped(t: string) returns (x: string)
    ensures AllSpace(x) && t == x + AfterSpaces(t)
  {
    x := "";
    if t != [] && Space(t[0]) {
      var y := SpacesSkipped(t[1..]);
      x := [t[0]] + y;
    }
  }

  lemma LiteralParts(cell: string, t: string, n: nat)
    requires Literal(cell).Some? && t == AfterSpaces(cell) && t != [] && n == MarkAt(t[1..])
    ensures QuoteMark(t[0]) && 1 + n < |t| && t[1 + n] == t[0] && AllSpace(t[2 + n..])
    ensures Literal(cell).value == t[1..1 + n] && NoMarks(t[1..][..n])
  {
  }

  /** A cell reads as a literal only in that shape. */
  lemma LiteralShape(cell: string) returns (x: string, m: char, y: string)
    requires Literal(cell).Some?
    ensures AllSpace(x) && QuoteMark(m) && NoMarks(Literal(cell).value) && AllSpace(y)
    ensures cell == x + (Quoting(m, Literal(cell).value) + y)
  {
    var t := AfterSpaces(cell);
    var n := MarkAt(t[1..]);
    LiteralParts(cell, t, n);
    QuotedSplit(t, n);
    x := SpacesSkipped(cell);
    m, y := t[0], t[2 + n..];
  }

  lemma QuotedSplit(t: string, n: nat)
    requires 1 + n < |t| && t[1 + n] == t[0]
    ensures t == Quoting(t[0], t[1..1 + n]) + t[2 + n..] && t[1..][..n] == t[1..1 + n]
  {
    assert t[1..][..n] == t[1..1 + n];
    assert t == [t[0]] + (t[1..1 + n] + [t[1 + n]]) + t[2 + n..];
  }

  lemma {:induction false} MarkAtOf(s: string, m: char, y: string)
    requires QuoteMark(m) && NoMarks(s)
    ensures MarkAt(s + ([m] + y)) == |s|
  {
    if s == [] {
    } else {
      assert (s + ([m] + y))[1..] == s[1..] + ([m] + y);
      MarkAtOf(s[1..], m, y);
    }
  }

  /** A quoted item is not a blank cell and reads as its text; a hole is blank. */
  lemma ReadCell(c: Cell)
    requires CellOk(c)
    ensures c.Hole? ==> Kept(BlankCell(c)) == []
    ensures c.Item? ==> Kept(BlankCell(c)) == [BlankCell(c)] && Read(BlankCell(c)) == [c.text]
  {
    match c
    case Hole(g) => BlankGapIsSpace(g);
    case Item(b, m, s, a) =>
      BlankGapIsSpace(b);
      BlankGapIsSpace(a);
      LiteralOf(BlankGap(b), m, s, BlankGap(a));
      assert !Space(BlankCell(c)[|BlankGap(b)|]);
  }

  lemma {:induction false} ReadCells(cells: seq<Cell>)
    requires CellsOk(cells)
    ensures ReadRows(Collect(Kept, CellTexts(cells)), None) == ItemTexts(cells)
  {
    if cells == [] {
    } else {
      var text, more := BlankCell(cells[0]), CellTexts(cells[1..]);
      ReadCell(cells[0]);
      ReadCells(cells[1..]);
      assert CellTexts(cells)[1..] == more;
      if cells[0].Item? {
        assert ([text] + Collect(Kept, more))[1..] == Collect(Kept, more);
      } else {
        assert Collect(Kept, CellTexts(cells)) == Collect(Kept, more);
      }
    }
  }

  /** The items of a stripped body: null when there are none. */
  lemma ItemsOfCells(cells: seq<Cell>)
    requires cells != [] && CellsOk(cells)
    ensures ItemsOfBody(BlankCells(cells), None) == if ItemTexts(cells) == [] then None else Some(ItemTexts(cells))
  {
    assert PrintCells(cells) + "" == PrintCells(cells) && BlankCells(cells) + "" == BlankCells(cells);
    StripCells(cells, "");
    StripIdempotent(PrintCells(cells), Outside);
    SplitCells(cells);
    ReadCells(cells);
  }

  // ---- The declaration ----

  predicate Keyword(k: string) { k == "const" || k == "let" || k == "var" }

  predicate NameChar(c: char) { 'a' <= c <= 'z' || 'A' <= c <= 'Z' || '0' <= c <= '9' || c == '_' }

  predicate Identifier(name: string) { name != [] && forall i :: 0 <= i < |name| ==> NameChar(name[i]) }

  /** A declaration of an array, with gaps wherever the language allows them. */
  function Declaration(k: string, g1: Gap, name: string, g2: Gap, g3: Gap, body: string, rest: string): string {
    k + (PrintGap(g1) + (name + (PrintGap(g2) + ("=" + (PrintGap(g3) + InBrackets(body, rest))))))
  }

  function InBrackets(body: string, rest: string): string { "[" + (body + ("]" + rest)) }

  /** The same with x, y and z for the gaps, and the stripped array. */
  function Bare(k: string, x: string, name: string, y: string, z: string, arr: string): string {
    k + (x + (name + (y + ("=" + (z + arr)))))
  }

  /** Before a closing bracket, the body is stripped to the given text, which the bracket matcher takes whole. */
  ghost predicate ReadsAs(body: string, bare: string) {
    && (forall u :: Strip(body + ("]" + u), Outside) == bare + ("]" + Strip(u, Outside)))
    && (forall u :: Body(InBrackets(bare, u)) == Some(bare))
  }

  lemma StripArray(body: string, bare: string, rest: string)
    requires ReadsAs(body, bare)
    ensures Strip(InBrackets(body, rest), Outside) == InBrackets(bare, Strip(rest, Outside))
  {
    StripPlain("[", body + ("]" + rest));
  }

  /** A word and a gap before any text. */
  lemma StripWord(word: string, g: Gap, u: string)
    requires Plain(word) && GapOk(g)
    ensures Strip(word + (PrintGap(g) + u), Outside) == word + (BlankGap(g) + Strip(u, Outside))
  {
    StripPlain(word, PrintGap(g) + u);
    StripGap(g, u);
  }

  lemma StripDeclaration(k: string, g1: Gap, name: string, g2: Gap, g3: Gap, body: string, bare: string, rest: string)
    requires Plain(k) && Plain(name) && GapOk(g1) && GapOk(g2) && GapOk(g3) && ReadsAs(body, bare)
    ensures Strip(Declaration(k, g1, name, g2, g3, body, rest), Outside) ==
            Bare(k, BlankGap(g1), name, BlankGap(g2), BlankGap(g3), InBrackets(bare, Strip(rest, Outside)))
  {
    var t3 := InBrackets(body, rest);
    var t2 := "=" + (PrintGap(g3) + t3);
    StripWord(k, g1, name + (PrintGap(g2) + t2));
    StripWord(name, g2, t2);
    StripWord("=", g3, t3);
    StripArray(body, bare, rest);
  }

  lemma StartsOf(p: string, u: string)
    ensures Starts(p + u, p) && (p + u)[|p|..] == u
  {
  }

  lemma NamedOf(name: string, y: string, z: string, arr: string)
    requires AllSpace(y) && AllSpace(z) && arr != [] && arr[0] == '['
    ensures NamedHere(name + (y + ("=" + (z + arr))), name)
  {
    StartsOf(name, y + ("=" + (z + arr)));
    AfterSpacesOf(y, "=" + (z + arr));
    assert ("=" + (z + arr))[1..] == z + arr;
    AfterSpacesOf(z, arr);
  }

  lemma KeywordOf(k: string, u: string)
    requires Keyword(k)
    ensures AfterKeyword(k + u) == Some(u)
  {
    StartsOf(k, u);
    if k != "const" { assert (k + u)[0] != 'c'; }
  }

  lemma DeclaredOf(k: string, x: string, name: string, y: string, z: string, arr: string)
    requires Keyword(k) && Identifier(name) && x != [] && AllSpace(x) && AllSpace(y) && AllSpace(z)
    requires arr != [] && arr[0] == '['
    ensures DeclaredHere(Bare(k, x, name, y, z, arr), name)
  {
    var u := name + (y + ("=" + (z + arr)));
    KeywordOf(k, x + u);
    NamedOf(name, y, z, arr);
    assert (x + u)[0] == x[0];
    assert NameChar(name[0]) && u[0] == name[0];
    AfterSpacesOf(x, u);
  }

  /** Whatever matches as a declaration of the name has that shape: keyword, white space, name, equals sign, bracket. */
  lemma DeclaredShape(t: string, name: string) returns (k: string, x: string, y: string, z: string, arr: string)
    requires DeclaredHere(t, name)
    ensures Keyword(k) && x != [] && AllSpace(x) && AllSpace(y) && AllSpace(z) && arr != [] && arr[0] == '['
    ensures t == Bare(k, x, name, y, z, arr)
  {
    var u := AfterKeyword(t).value;
    k := t[..|t| - |u|];
    KeywordShape(t, u);
    x := SpacesSkipped(u);
    y, z, arr := NamedShape(AfterSpaces(u), name);
    SpacesTaken(u);
  }

  lemma KeywordShape(t: string, u: string)
    requires AfterKeyword(t) == Some(u)
    ensures |u| <= |t| && Keyword(t[..|t| - |u|]) && t == t[..|t| - |u|] + u
  {
  }

  lemma SpacesTaken(u: string)
    requires u != [] && Space(u[0])
    ensures |AfterSpaces(u)| < |u|
  {
    var x := SpacesSkipped(u[1..]);
  }

  lemma NamedShape(t: string, name: string) returns (y: string, z: string, arr: string)
    requires NamedHere(t, name)
    ensures AllSpace(y) && AllSpace(z) && arr != [] && arr[0] == '[' && t == name + (y + ("=" + (z + arr)))
  {
    var rest := t[|name|..];
    assert t == name + rest;
    y, z, arr := EqualsShape(rest, AfterSpaces(rest));
  }

  lemma EqualsShape(rest: string, u: string) returns (y: string, z: string, arr: string)
    requires u == AfterSpaces(rest) && u != [] && u[0] == '='
    requires AfterSpaces(u[1..]) != [] && AfterSpaces(u[1..])[0] == '['
    ensures AllSpace(y) && AllSpace(z) && arr != [] && arr[0] == '[' && rest == y + ("=" + (z + arr))
  {
    y := SpacesSkipped(rest);
    z, arr := BracketShape(u[1..]);
    assert u == "=" + u[1..];
  }

  lemma BracketShape(v: string) returns (z: string, arr: string)
    ensures AllSpace(z) && arr == AfterSpaces(v) && v == z + arr
  {
    z := SpacesSkipped(v);
    arr := AfterSpaces(v);
  }

  lemma {:induction false} OpenAtOf(a: string, arr: string)
    requires '[' !in a && arr != [] && arr[0] == '['
    ensures OpenAt(a + arr) == |a| && From(a + arr, |a|) == arr
  {
    if a == [] {
      assert a + arr == arr;
    } else {
      assert (a + arr)[1..] == a[1..] + arr;
      OpenAtOf(a[1..], arr);
    }
  }

  lemma OpenOf(k: string, x: string, name: string, y: string, z: string, arr: string)
    requires Keyword(k) && Identifier(name) && AllSpace(x) && AllSpace(y) && AllSpace(z)
    requires arr != [] && arr[0] == '['
    ensures var t := Bare(k, x, name, y, z, arr); From(t, OpenAt(t)) == arr
  {
    var a := k + (x + (name + (y + ("=" + z))));
    assert Bare(k, x, name, y, z, arr) == a + arr;
    OpenAtOf(a, arr);
  }

  lemma WordsArePlain(k: string, name: string)
    requires Keyword(k) && Identifier(name)
    ensures Plain(k) && Plain(name)
  {
  }

  lemma BlankGapNonEmpty(g: Gap)
    requires g != []
    ensures BlankGap(g) != []
  {
    assert BlankPiece(g[0]) != [];
  }

  /** What is found in a stripped declaration: its array. */
  lemma ArrayFound(k: string, x: string, name: string, y: string, z: string, arr: string, text: string)
    requires text == Bare(k, x, name, y, z, arr) && Keyword(k) && Identifier(name)
    requires x != [] && AllSpace(x) && AllSpace(y) && AllSpace(z) && arr != [] && arr[0] == '['
    ensures DeclaredHere(text, name) && From(text, OpenAt(text)) == arr
  {
    DeclaredOf(k, x, name, y, z, arr);
    OpenOf(k, x, name, y, z, arr);
  }

  lemma DeclIndexAfter(b: string, text: string, file: string, name: string)
    requires file == b + text && DeclaredHere(text, name)
    requires forall i :: 0 <= i < |b| ==> !DeclaredHere(file[i..], name)
    ensures DeclIndex(file, name) == Some(|b|)
  {
    assert file[|b|..] == text;
    DeclIndexAt(file, name, |b|);
  }

  lemma ArrayAfter(b: string, text: string, file: string, arr: string)
    requires file == b + text && From(text, OpenAt(text)) == arr
    ensures ArrayFrom(file, Some(|b|)) == Some(arr)
  {
    assert file[|b|..] == text;
    assert file[|b| + OpenAt(text)..] == arr;
  }

  lemma ItemsByParts(source: string, name: string, tuple: Option<nat>, file: string, n: nat, arr: string, body: string)
    requires Strip(source, Outside) == file && DeclIndex(file, name) == Some(n)
    requires ArrayFrom(file, Some(n)) == Some(arr) && Body(arr) == Some(body)
    ensures ArrayItems(source, name, tuple) == ItemsOfBody(body, tuple)
  {
  }

  /** A declaration as it stands in a file: the text before it ends outside quotes and comments, and in the stripped
      file nothing before it is a declaration of the name. */
  ghost predicate FirstDeclared(before: string, d: string, name: string) {
    && EndsOutside(before, Outside)
    && var file := Strip(before + d, Outside);
       |Strip(before, Outside)| <= |file| && forall i :: 0 <= i < |Strip(before, Outside)| ==> !DeclaredHere(file[i..], name)
  }

  lemma DeclarationStarts(k: string, g1: Gap, name: string, g2: Gap, g3: Gap, body: string, rest: string)
    requires Keyword(k)
    ensures AfterSlash(Declaration(k, g1, name, g2, g3, body, rest))
  {
    assert Declaration(k, g1, name, g2, g3, body, rest)[0] == k[0];
  }

  /** The array of the first declaration in a file is read from its stripped body. */
  lemma ReadDeclaration(before: string, k: string, g1: Gap, name: string, g2: Gap, g3: Gap, body: string, bare: string,
                        rest: string, tuple: Option<nat>)
    requires Keyword(k) && Identifier(name) && ReadsAs(body, bare)
    requires g1 != [] && GapOk(g1) && GapOk(g2) && GapOk(g3)
    requires FirstDeclared(before, Declaration(k, g1, name, g2, g3, body, rest), name)
    ensures ArrayItems(before + Declaration(k, g1, name, g2, g3, body, rest), name, tuple) == ItemsOfBody(bare, tuple)
  {
    var d := Declaration(k, g1, name, g2, g3, body, rest);
    var x, y, z := BlankGap(g1), BlankGap(g2), BlankGap(g3);
    var arr := InBrackets(bare, Strip(rest, Outside));
    var text := Bare(k, x, name, y, z, arr);
    WordsArePlain(k, name);
    StripDeclaration(k, g1, name, g2, g3, body, bare, rest);
    BlankGapNonEmpty(g1);
    BlankGapIsSpace(g1);
    BlankGapIsSpace(g2);
    BlankGapIsSpace(g3);
    ArrayFound(k, x, name, y, z, arr, text);
    DeclarationStarts(k, g1, name, g2, g3, body, rest);
    StripSplits(before, d, Outside);
    var b := Strip(before, Outside);
    DeclIndexAfter(b, text, b + text, name);
    ArrayAfter(b, text, b + text, arr);
    ItemsByParts(before + d, name, tuple, b + text, |b|, arr, bare);
  }

  lemma CellsRead(cells: seq<Cell>)
    requires cells != [] && CellsOk(cells)
    ensures ReadsAs(PrintCells(cells), BlankCells(cells))
  {
    var body, bare := PrintCells(cells), BlankCells(cells);
    forall u ensures Strip(body + ("]" + u), Outside) == bare + ("]" + Strip(u, Outside)) {
      StripCells(cells, "]" + u);
      StripPlain("]", u);
    }
    forall u ensures Body(InBrackets(bare, u)) == Some(bare) { BodyOfCells(cells, u); }
  }

  /** Reading back a declaration printed anywhere in a file gives its items, whatever comments, holes, quote marks and
      following text it is printed with; a declaration without items reads as null. */
  lemma RoundTrip(before: string, k: string, g1: Gap, name: string, g2: Gap, g3: Gap, cells: seq<Cell>, rest: string)
    requires Keyword(k) && Identifier(name) && cells != [] && CellsOk(cells)
    requires g1 != [] && GapOk(g1) && GapOk(g2) && GapOk(g3)
    requires FirstDeclared(before, Declaration(k, g1, name, g2, g3, PrintCells(cells), rest), name)
    ensures ArrayItems(before + Declaration(k, g1, name, g2, g3, PrintCells(cells), rest), name, None) ==
            if ItemTexts(cells) == [] then None else Some(ItemTexts(cells))
  {
    CellsRead(cells);
    ReadDeclaration(before, k, g1, name, g2, g3, PrintCells(cells), BlankCells(cells), rest, None);
    ItemsOfCells(cells);
  }
}
