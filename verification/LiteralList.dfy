/** The literal-list reader of bin/sibling-reference-map.js: bracket matching, splitting on top-level commas and
    reading quoted items, after comments are stripped.
 */
module LiteralList {
  import opened Options
  import opened CommentStripper

  /** The white space of the regular expression class \s and of trim. */
  predicate Space(c: char) {
    || c == ' ' || c == '\t' || c == '\n' || c == '\r' || c == '\U{000B}' || c == '\U{000C}' || c == '\U{00A0}'
    || c == '\U{1680}' || '\U{2000}' <= c <= '\U{200A}' || c == '\U{2028}' || c == '\U{2029}' || c == '\U{202F}'
    || c == '\U{205F}' || c == '\U{3000}' || c == '\U{FEFF}'
  }

  /** The white space and line terminators of ECMAScript, by code point. */
  lemma SpacesAre(c: char)
    ensures Space(c) <==>
            c as int in {0x09, 0x0A, 0x0B, 0x0C, 0x0D, 0x20, 0xA0, 0x1680, 0x2028, 0x2029, 0x202F, 0x205F, 0x3000, 0xFEFF} ||
            0x2000 <= c as int <= 0x200A
  {
  }

  predicate AllSpace(t: string) { forall i :: 0 <= i < |t| ==> Space(t[i]) }

  /** Quote state of the scanners: a closing mark counts unless the character before it is a backslash. */
  datatype Mode = Code | Quoted(mark: char, slashed: bool)

  function NextMode(mode: Mode, c: char): Mode {
    if mode.Quoted? then (if c == mode.mark && !mode.slashed then Code else Quoted(mode.mark, c == '\\'))
    else if QuoteMark(c) then Quoted(c, false)
    else Code
  }

  // ---- Matching the bracket ----

  function NextDepth(mode: Mode, depth: int, c: char): int {
    if mode.Quoted? then depth else if c == '[' then depth + 1 else if c == ']' then depth - 1 else depth
  }

  predicate Closes(mode: Mode, depth: int, c: char) { mode.Code? && c == ']' && depth == 1 }

  /** The distance to the bracket that brings the depth back to zero. */
  function BodyEnd(t: string, depth: int, mode: Mode): Option<nat> {
    if t == [] then None
    else if Closes(mode, depth, t[0]) then Some(0)
    else
      match BodyEnd(t[1..], NextDepth(mode, depth, t[0]), NextMode(mode, t[0]))
      case None => None
      case Some(n) => Some(n + 1)
  }

  /** The text between the bracket that t starts with and its match. */
  function Body(t: string): Option<string> {
    match BodyEnd(t, 0, Code)
    case None => None
    case Some(n) => if n < 1 || n > |t| then None else Some(t[1..n])
  }

  method BalancedArrayBody(text: string, openIndex: nat) returns (r: Option<string>)
    requires openIndex <= |text|
    ensures r == Body(text[openIndex..])
  {
    var depth := 0;
    var quote := Outside;
    ghost var mode := Code;
    ghost var t := text[openIndex..];
    for i := openIndex to |text|
      invariant quote.Outside? <==> mode.Code?
      invariant mode.Quoted? ==> i > 0 && quote == Inside(mode.mark) && mode.slashed == (text[i - 1] == '\\')
      invariant i == openIndex ==> depth == 0 && mode == Code
      invariant match BodyEnd(text[i..], depth, mode)
                case None => BodyEnd(t, 0, Code) == None
                case Some(n) => BodyEnd(t, 0, Code) == Some(n + (i - openIndex))
    {
      var c := text[i];
      assert text[i..][1..] == text[i + 1..];
      mode := NextMode(mode, c);
      if quote.Inside? {
        if c == quote.mark && text[i - 1] != '\\' { quote := Outside; }
      } else if QuoteMark(c) {
        quote := Inside(c);
      } else if c == '[' {
        depth := depth + 1;
      } else if c == ']' {
        depth := depth - 1;
        if depth == 0 {
          assert t[1..i - openIndex] == text[openIndex + 1..i];
          return Some(text[openIndex + 1..i]);
        }
      }
    }
    return None;
  }

  // ---- Splitting on top-level commas ----

  predicate Opener(c: char) { c == '[' || c == '{' || c == '(' }

  predicate Closer(c: char) { c == ']' || c == '}' || c == ')' }

  predicate Splits(mode: Mode, depth: int, c: char) { mode.Code? && c == ',' && depth == 0 }

  function Nesting(mode: Mode, depth: int, c: char): int {
    if mode.Quoted? then depth else if Opener(c) then depth + 1 else if Closer(c) then depth - 1 else depth
  }

  /** The cells of the text, `cell` being the part of the first one already read. */
  function Split(t: string, cell: string, depth: int, mode: Mode): seq<string> {
    if t == [] then [cell]
    else if Splits(mode, depth, t[0]) then [cell] + Split(t[1..], "", depth, mode)
    else Split(t[1..], cell + [t[0]], Nesting(mode, depth, t[0]), NextMode(mode, t[0]))
  }

  /** The results of reading each cell, in order. */
  function Collect(read: string -> seq<string>, cells: seq<string>): seq<string> {
    if cells == [] then [] else read(cells[0]) + Collect(read, cells[1..])
  }

  method Gather(read: string -> seq<string>, cells: seq<string>) returns (out: seq<string>)
    ensures out == Collect(read, cells)
  {
    out := [];
    for i := 0 to |cells|
      invariant out + Collect(read, cells[i..]) == Collect(read, cells)
    {
      assert cells[i..][1..] == cells[i + 1..];
      out := out + read(cells[i]);
    }
  }

  /** Blank cells are dropped. */
  function Kept(cell: string): seq<string> { if AllSpace(cell) then [] else [cell] }

  method SplitTopLevel(body: string) returns (out: seq<string>)
    ensures out == Collect(Kept, Split(body, "", 0, Code))
  {
    var cells := [];
    var depth := 0;
    var quote := Outside;
    var start := 0;
    ghost var mode := Code;
    for i := 0 to |body|
      invariant start <= i
      invariant quote.Outside? <==> mode.Code?
      invariant mode.Quoted? ==> i > 0 && quote == Inside(mode.mark) && mode.slashed == (body[i - 1] == '\\')
      invariant cells + Split(body[i..], body[start..i], depth, mode) == Split(body, "", 0, Code)
    {
      var c := body[i];
      assert body[i..][1..] == body[i + 1..];
      assert body[start..i] + [c] == body[start..i + 1];
      mode := NextMode(mode, c);
      if quote.Inside? {
        if c == quote.mark && body[i - 1] != '\\' { quote := Outside; }
      } else if QuoteMark(c) {
        quote := Inside(c);
      } else if Opener(c) {
        depth := depth + 1;
      } else if Closer(c) {
        depth := depth - 1;
      } else if c == ',' && depth == 0 {
        assert cells + [body[start..i]] + Split(body[i + 1..], "", depth, mode)
            == cells + ([body[start..i]] + Split(body[i + 1..], "", depth, mode));
        assert body[i + 1..i + 1] == "";
        cells := cells + [body[start..i]];
        start := i + 1;
      }
    }
    assert body[|body|..] == [] && body[start..|body|] == body[start..];
    cells := cells + [body[start..]];
    out := Gather(Kept, cells);
  }

  // ---- Reading one cell ----

  function AfterSpaces(t: string): string {
    if t == [] || !Space(t[0]) then t else AfterSpaces(t[1..])
  }

  predicate NoMarks(t: string) { forall i :: 0 <= i < |t| ==> !QuoteMark(t[i]) }

  function MarkAt(t: string): (n: nat)
    ensures n <= |t| && NoMarks(t[..n]) && (n < |t| ==> QuoteMark(t[n]))
  {
    if t == [] || QuoteMark(t[0]) then 0 else 1 + MarkAt(t[1..])
  }

  /** White space, a mark, text without marks, the same mark, white space: the text. */
  function Literal(cell: string): Option<string> {
    var t := AfterSpaces(cell);
    if t == [] || !QuoteMark(t[0]) then None
    else
      var n := MarkAt(t[1..]);
      if 1 + n < |t| && t[1 + n] == t[0] && AllSpace(t[2 + n..]) then Some(t[1..1 + n]) else None
  }

  /** The item of a cell that is a literal; any other cell is skipped. */
  function Read(cell: string): seq<string> {
    match Literal(cell)
    case None => []
    case Some(s) => [s]
  }

  /** A row without the bracket it opens with. */
  function DropOpen(row: string): string {
    var t := AfterSpaces(row);
    if t != [] && t[0] == '[' then t[1..] else row
  }

  function TrimEnd(t: string): string {
    if t == [] || !Space(t[|t| - 1]) then t else TrimEnd(t[..|t| - 1])
  }

  /** A row without the bracket it closes with. */
  function DropClose(row: string): string {
    var t := TrimEnd(row);
    if t != [] && t[|t| - 1] == ']' then t[..|t| - 1] else row
  }

  function At(cells: seq<string>, k: nat): string { if k < |cells| then cells[k] else "" }

  /** The cell of a row that is read: the row itself, or its cell in the asked column. */
  function Column(row: string, tuple: Option<nat>): string {
    match tuple
    case None => row
    case Some(k) => At(Collect(Kept, Split(DropClose(DropOpen(row)), "", 0, Code)), k)
  }

  function ReadRows(rows: seq<string>, tuple: Option<nat>): seq<string> {
    if rows == [] then [] else Read(Column(rows[0], tuple)) + ReadRows(rows[1..], tuple)
  }

  method PickColumn(row: string, tuple: Option<nat>) returns (cell: string)
    ensures cell == Column(row, tuple)
  {
    if tuple.None? { return row; }
    var cells := SplitTopLevel(DropClose(DropOpen(row)));
    return At(cells, tuple.value);
  }

  method ReadAll(rows: seq<string>, tuple: Option<nat>) returns (items: seq<string>)
    ensures items == ReadRows(rows, tuple)
  {
    items := [];
    for i := 0 to |rows|
      invariant items + ReadRows(rows[i..], tuple) == ReadRows(rows, tuple)
    {
      var cell := PickColumn(rows[i], tuple);
      ReadRowsFirst(rows, i, tuple, items, Read(cell));
      items := items + Read(cell);
    }
  }

  lemma ReadRowsFirst(rows: seq<string>, i: nat, tuple: Option<nat>, items: seq<string>, first: seq<string>)
    requires i < |rows| && first == Read(Column(rows[i], tuple))
    ensures items + ReadRows(rows[i..], tuple) == (items + first) + ReadRows(rows[i + 1..], tuple)
  {
    ReadRowsUnfold(rows[i..], rows[i + 1..], tuple);
    MoveFirst(items, first, ReadRows(rows[i..], tuple), ReadRows(rows[i + 1..], tuple));
  }

  lemma ReadRowsUnfold(rows: seq<string>, rest: seq<string>, tuple: Option<nat>)
    requires rows != [] && rest == rows[1..]
    ensures ReadRows(rows, tuple) == Read(Column(rows[0], tuple)) + ReadRows(rest, tuple)
  {
  }

  lemma MoveFirst(items: seq<string>, first: seq<string>, all: seq<string>, rest: seq<string>)
    requires all == first + rest
    ensures items + all == (items + first) + rest
  {
  }

  function OrNull(items: seq<string>): Option<seq<string>> { if items == [] then None else Some(items) }

  /** The literals of an array body, or of one column of its rows; nothing when there is none. */
  function ItemsOfBody(body: string, tuple: Option<nat>): Option<seq<string>> {
    OrNull(ReadRows(Collect(Kept, Split(Strip(body, Outside), "", 0, Code)), tuple))
  }

  method ItemsFromArrayBody(body: string, tuple: Option<nat>) returns (r: Option<seq<string>>)
    ensures r == ItemsOfBody(body, tuple)
  {
    var bare := StripComments(body);
    var rows := SplitTopLevel(bare);
    var items := ReadAll(rows, tuple);
    return OrNull(items);
  }

  // ---- Finding the declaration ----

  predicate Starts(t: string, p: string) { |p| <= |t| && t[..|p|] == p }

  function AfterKeyword(t: string): Option<string> {
    if Starts(t, "const") then Some(t[5..])
    else if Starts(t, "let") || Starts(t, "var") then Some(t[3..])
    else None
  }

  /** What follows the name, the equals sign and the opening bracket must stand here, white space between. */
  predicate NamedHere(t: string, name: string) {
    && Starts(t, name)
    && var u := AfterSpaces(t[|name|..]);
       u != [] && u[0] == '=' && var v := AfterSpaces(u[1..]); v != [] && v[0] == '['
  }

  predicate DeclaredHere(t: string, name: string) {
    match AfterKeyword(t)
    case None => false
    case Some(u) => u != [] && Space(u[0]) && NamedHere(AfterSpaces(u), name)
  }

  /** Where the declaration of the name first matches. */
  function DeclIndex(t: string, name: string): (r: Option<nat>)
    ensures r.Some? ==> r.value <= |t|
  {
    if DeclaredHere(t, name) then Some(0)
    else if t == [] then None
    else
      match DeclIndex(t[1..], name)
      case None => None
      case Some(n) => Some(n + 1)
  }

  /** It matches there and nowhere before, and a name that is not found matches nowhere. */
  lemma {:induction false} DeclIndexIsFirst(t: string, name: string, i: nat)
    requires i <= |t|
    ensures DeclIndex(t, name) == Some(i) ==> DeclaredHere(t[i..], name)
    ensures DeclIndex(t, name).None? || i < DeclIndex(t, name).value ==> !DeclaredHere(t[i..], name)
  {
    if i == 0 {
      assert t[0..] == t;
    } else {
      DeclIndexIsFirst(t[1..], name, i - 1);
      assert t[1..][i - 1..] == t[i..];
    }
  }

  lemma {:induction false} DeclIndexAt(t: string, name: string, n: nat)
    requires n <= |t| && DeclaredHere(t[n..], name) && forall i :: 0 <= i < n ==> !DeclaredHere(t[i..], name)
    ensures DeclIndex(t, name) == Some(n)
  {
    if n == 0 {
      assert t[0..] == t;
    } else {
      assert t[0..] == t && forall i :: 0 <= i < n - 1 ==> t[1..][i..] == t[i + 1..];
      assert t[1..][n - 1..] == t[n..];
      DeclIndexAt(t[1..], name, n - 1);
    }
  }

  /** The distance to the first opening bracket. */
  function OpenAt(t: string): (n: nat)
    ensures n <= |t| && (n < |t| ==> t[n] == '[') && forall i :: 0 <= i < n ==> t[i] != '['
  {
    if t == [] || t[0] == '[' then 0 else 1 + OpenAt(t[1..])
  }

  /** The items of the array that t starts with. */
  function ItemsAt(t: string, tuple: Option<nat>): Option<seq<string>> {
    match Body(t)
    case None => None
    case Some(body) => ItemsOfBody(body, tuple)
  }

  /** The text from the first array at or after a declaration, if one was found. */
  function ArrayFrom(text: string, decl: Option<nat>): Option<string>
    requires decl.Some? ==> decl.value <= |text|
  {
    if decl.None? then None else Some(text[decl.value + OpenAt(text[decl.value..])..])
  }

  function ArrayItems(source: string, name: string, tuple: Option<nat>): Option<seq<string>> {
    var text := Strip(source, Outside);
    match ArrayFrom(text, DeclIndex(text, name))
    case None => None
    case Some(t) => ItemsAt(t, tuple)
  }

  method ReadArray(text: string, openIndex: nat, tuple: Option<nat>) returns (r: Option<seq<string>>)
    requires openIndex <= |text|
    ensures r == ItemsAt(text[openIndex..], tuple)
  {
    var body := BalancedArrayBody(text, openIndex);
    if body.None? { return None; }
    r := ItemsFromArrayBody(body.value, tuple);
  }

  method OpenIndex(text: string, at: nat) returns (i: nat)
    requires at <= |text|
    ensures i <= |text| && ArrayFrom(text, Some(at)) == Some(text[i..])
  {
    i := at + OpenAt(text[at..]);
  }

  method ArrayLiteralItems(source: string, name: string, tuple: Option<nat>) returns (r: Option<seq<string>>)
    ensures r == ArrayItems(source, name, tuple)
  {
    var text := StripComments(source);
    var decl := DeclIndex(text, name);
    if decl.None? { return None; }
    var openIndex := OpenIndex(text, decl.value);
    r := ReadArray(text, openIndex, tuple);
  }
}
