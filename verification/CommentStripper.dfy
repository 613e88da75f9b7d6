/** The comment stripper of bin/sibling-reference-map.js: comments become spaces, quoted text and offsets stay. */
module CommentStripper {
  predicate QuoteMark(c: char) { c == '\'' || c == '"' || c == '`' }

  datatype Quote = Outside | Inside(mark: char)

  /** How far a line comment reaches: to the newline, or to the end. */
  function LineEnd(t: string): (n: nat)
    ensures n <= |t| && (n < |t| ==> t[n] == '\n') && forall i :: 0 <= i < n ==> t[i] != '\n'
  {
    if t == [] || t[0] == '\n' then 0 else 1 + LineEnd(t[1..])
  }

  /** How far a block comment reaches after its opening: past the first close, or to the end. */
  function BlockEnd(t: string): (n: nat)
    ensures n <= |t| && (t != [] ==> n > 0)
  {
    if |t| < 2 then |t| else if t[0] == '*' && t[1] == '/' then 2 else 1 + BlockEnd(t[1..])
  }

  function Blank(t: string): (r: string)
    ensures |r| == |t| && forall i :: 0 <= i < |t| ==> r[i] == if t[i] == '\n' then '\n' else ' '
  {
    if t == [] then [] else [if t[0] == '\n' then '\n' else ' '] + Blank(t[1..])
  }

  predicate LineOpens(t: string) { |t| >= 2 && t[0] == '/' && t[1] == '/' }

  predicate BlockOpens(t: string) { |t| >= 2 && t[0] == '/' && t[1] == '*' }

  /** The text from position n, empty beyond the end. */
  function From(t: string, n: nat): string { if n <= |t| then t[n..] else [] }

  /** What one turn of the stripping loop writes, how far it moves, and the quote state it leaves. */
  datatype Turn = Turn(piece: string, taken: nat, quote: Quote)

  function TurnAt(t: string, quote: Quote): (r: Turn)
    requires t != []
    ensures r.taken > 0
  {
    if quote.Inside? then
      if t[0] == '\\' then Turn(if |t| > 1 then t[..2] else t, 2, quote)
      else Turn([t[0]], 1, if t[0] == quote.mark then Outside else quote)
    else if QuoteMark(t[0]) then Turn([t[0]], 1, Inside(t[0]))
    else if LineOpens(t) then Turn(Blank(t[..LineEnd(t)]) + "\n", LineEnd(t) + 1, Outside)
    else if BlockOpens(t) then Turn(Blank(t[..2 + BlockEnd(t[2..])]), 2 + BlockEnd(t[2..]), Outside)
    else Turn([t[0]], 1, Outside)
  }

  /** The text with comments blanked. */
  function Strip(t: string, quote: Quote): string
    decreases |t|
  {
    if t == [] then []
    else
      var turn := TurnAt(t, quote);
      turn.piece + Strip(From(t, turn.taken), turn.quote)
  }

  /** A line comment starts here and no newline follows. */
  predicate LeavesLineOpen(t: string, quote: Quote) { quote.Outside? && LineOpens(t) && LineEnd(t) == |t| }

  /** The text ends inside a line comment. */
  predicate EndsInLine(t: string, quote: Quote)
    decreases |t|
  {
    && t != []
    && (|| LeavesLineOpen(t, quote)
        || EndsInLine(From(t, TurnAt(t, quote).taken), TurnAt(t, quote).quote))
  }

  /** Blanks the line comment at position `at`, and writes its newline. */
  method BlankLine(text: string, at: nat, sofar: string) returns (out: string, i: nat)
    requires at < |text|
    ensures i == at + LineEnd(text[at..]) + 1 && out == sofar + (Blank(text[at..][..LineEnd(text[at..])]) + "\n")
  {
    ghost var rest := text[at..];
    ghost var blanks := "";
    out, i := sofar, at;
    while i < |text| && text[i] != '\n'
      invariant at <= i <= at + LineEnd(rest)
      invariant blanks == Blank(rest[..i - at]) && out == sofar + blanks
    {
      BlankGrows(rest, i - at);
      out := out + [' '];
      blanks := blanks + [' '];
      i := i + 1;
    }
    out := out + "\n";
    i := i + 1;
  }

  /** Blanks the text from `at` to `stop`. */
  method BlankBlock(text: string, at: nat, stop: nat, sofar: string) returns (out: string)
    requires at <= stop <= |text|
    ensures out == sofar + Blank(text[at..stop])
  {
    ghost var blanks := "";
    out := sofar;
    for j := at to stop
      invariant blanks == Blank(text[at..j]) && out == sofar + blanks
    {
      BlankAppend(text[at..j], text[j]);
      assert text[at..j + 1] == text[at..j] + [text[j]];
      var b := if text[j] == '\n' then '\n' else ' ';
      Regroup(sofar, blanks, [b]);
      out := out + [b];
      blanks := blanks + [b];
    }
  }

  lemma BlankAppend(t: string, c: char)
    ensures Blank(t + [c]) == Blank(t) + [if c == '\n' then '\n' else ' ']
  {
  }

  lemma BlankGrows(t: string, n: nat)
    requires n < |t|
    ensures Blank(t[..n + 1]) == Blank(t[..n]) + [if t[n] == '\n' then '\n' else ' ']
  {
  }

  method TakeTurn(text: string, at: nat, was: Quote, sofar: string)
    returns (out: string, i: nat, quote: Quote, ghost piece: string)
    requires at < |text|
    ensures at < i && out == sofar + piece && Turn(piece, i - at, quote) == TurnAt(From(text, at), was)
  {
    assert From(text, at) == text[at..];
    var c := text[at];
    out, i, quote, piece := sofar, at, was, [c];
    if quote.Inside? {
      out := out + [c];
      if c == '\\' {
        if i + 1 < |text| { out := out + [text[i + 1]]; piece := [c, text[i + 1]]; }
        i := i + 1;
      } else if c == quote.mark {
        quote := Outside;
      }
      i := i + 1;
    } else if QuoteMark(c) {
      quote := Inside(c);
      out := out + [c];
      i := i + 1;
    } else if c == '/' && i + 1 < |text| && text[i + 1] == '/' {
      piece := Blank(text[i..][..LineEnd(text[i..])]) + "\n";
      out, i := BlankLine(text, i, out);
    } else if c == '/' && i + 1 < |text| && text[i + 1] == '*' {
      var stop := i + 2 + BlockEnd(text[i + 2..]);
      assert text[i + 2..] == text[i..][2..] && text[i..stop] == text[i..][..stop - i];
      piece := Blank(text[i..stop]);
      out := BlankBlock(text, i, stop, out);
      i := stop;
    } else {
      out := out + [c];
      i := i + 1;
    }
  }

  lemma FromFrom(t: string, at: nat, n: nat)
    ensures From(From(t, at), n) == From(t, at + n)
  {
  }

  /** A turn moves a piece of the result from what is left to what is written. */
  lemma Advance(t: string, was: Quote, turn: Turn, u: string, done: string, out: string)
    requires t != [] && turn == TurnAt(t, was) && u == From(t, turn.taken) && out == done + turn.piece
    ensures out + Strip(u, turn.quote) == done + Strip(t, was)
  {
    Shift(done, out, turn.piece, Strip(t, was), Strip(u, turn.quote));
  }

  lemma Shift(done: string, out: string, piece: string, left: string, next: string)
    requires out == done + piece && left == piece + next
    ensures out + next == done + left
  {
  }

  lemma Regroup(a: string, b: string, c: string)
    ensures a + b + c == a + (b + c)
  {
  }

  /** One turn of the loop, as seen by the result. */
  method StripTurn(text: string, at: nat, was: Quote, sofar: string) returns (out: string, i: nat, quote: Quote)
    requires at < |text|
    ensures at < i && out + Strip(From(text, i), quote) == sofar + Strip(From(text, at), was)
  {
    ghost var piece;
    out, i, quote, piece := TakeTurn(text, at, was, sofar);
    FromFrom(text, at, i - at);
    Advance(From(text, at), was, Turn(piece, i - at, quote), From(text, i), sofar, out);
  }

  method StripComments(text: string) returns (out: string)
    ensures out == Strip(text, Outside)
  {
    out := "";
    var quote := Outside;
    var i := 0;
    assert From(text, 0) == text;
    while i < |text|
      invariant out + Strip(From(text, i), quote) == Strip(text, Outside)
    {
      out, i, quote := StripTurn(text, i, quote, out);
    }
  }

  // ---- Offsets ----

  /** The result keeps every offset: each character is kept, or blanked unless it is a newline. A text that ends
      inside a line comment gets one newline more. */
  ghost predicate Aligned(t: string, r: string, extra: bool) {
    && |r| == |t| + (if extra then 1 else 0)
    && (extra ==> r[|t|] == '\n')
    && forall i :: 0 <= i < |t| ==> r[i] == t[i] || (r[i] == ' ' && t[i] != '\n')
  }

  lemma AlignedConcat(a: string, r: string, b: string, q: string, extra: bool)
    requires Aligned(a, r, false) && Aligned(b, q, extra)
    ensures Aligned(a + b, r + q, extra)
  {
  }

  lemma BlankAligned(t: string)
    ensures Aligned(t, Blank(t), false)
  {
  }

  lemma BlankedLine(a: string)
    ensures Aligned(a, Blank(a) + "\n", true) && Aligned(a + "\n", Blank(a) + "\n", false)
  {
    BlankAligned(a);
    AlignedConcat(a, Blank(a), "\n", "\n", false);
  }

  lemma LineSlice(t: string, n: nat)
    requires n == LineEnd(t)
    ensures n < |t| ==> t[..n + 1] == t[..n] + "\n"
    ensures n == |t| ==> t[..n] == t
  {
  }

  lemma LineAligned(t: string, n: nat)
    requires n == LineEnd(t)
    ensures n < |t| ==> Aligned(t[..n + 1], Blank(t[..n]) + "\n", false)
    ensures n == |t| ==> Aligned(t, Blank(t[..n]) + "\n", true)
  {
    LineSlice(t, n);
    BlankedLine(t[..n]);
  }

  /** Outside comments a turn copies what it reads. */
  lemma CopyPiece(t: string, quote: Quote, turn: Turn)
    requires t != [] && turn == TurnAt(t, quote) && (quote.Inside? || (!LineOpens(t) && !BlockOpens(t)))
    ensures turn.piece == if turn.taken <= |t| then t[..turn.taken] else t
  {
  }

  lemma TurnAligned(t: string, quote: Quote, turn: Turn)
    requires t != [] && turn == TurnAt(t, quote)
    ensures turn.taken <= |t| ==> Aligned(t[..turn.taken], turn.piece, false)
    ensures turn.taken > |t| ==> Aligned(t, turn.piece, LeavesLineOpen(t, quote))
  {
    if quote.Outside? && LineOpens(t) {
      LineAligned(t, LineEnd(t));
    } else if quote.Outside? && BlockOpens(t) {
      BlankAligned(t[..turn.taken]);
    } else {
      CopyPiece(t, quote, turn);
    }
  }

  lemma SplitAt(t: string, n: nat)
    requires n <= |t|
    ensures t == t[..n] + From(t, n)
  {
  }

  lemma EndsInLineStep(t: string, quote: Quote, turn: Turn)
    requires t != [] && turn == TurnAt(t, quote)
    ensures turn.taken <= |t| ==> EndsInLine(t, quote) == EndsInLine(From(t, turn.taken), turn.quote)
    ensures turn.taken > |t| ==> EndsInLine(t, quote) == LeavesLineOpen(t, quote)
  {
  }

  lemma {:induction false} StripAligned(t: string, quote: Quote)
    ensures Aligned(t, Strip(t, quote), EndsInLine(t, quote))
    decreases |t|
  {
    if t == [] {
    } else {
      var turn := TurnAt(t, quote);
      var u := From(t, turn.taken);
      TurnAligned(t, quote, turn);
      EndsInLineStep(t, quote, turn);
      StripAligned(u, turn.quote);
      if turn.taken <= |t| {
        SplitAt(t, turn.taken);
        AlignedConcat(t[..turn.taken], turn.piece, u, Strip(u, turn.quote), EndsInLine(u, turn.quote));
      }
    }
  }

  /** Stripping keeps the length unless the text ends inside a line comment. */
  lemma StripKeepsLengthIff(t: string)
    ensures |Strip(t, Outside)| == |t| <==> !EndsInLine(t, Outside)
    ensures Strip("//", Outside) == "  \n"
  {
    StripAligned(t, Outside);
    assert LineEnd("/") == 1 && LineEnd("//") == 2;
    assert TurnAt("//", Outside) == Turn("  \n", 3, Outside);
  }

  // ---- Stripping twice ----

  /** No quote and no slash: stripping passes over it. */
  predicate Plain(t: string) { forall i :: 0 <= i < |t| ==> !QuoteMark(t[i]) && t[i] != '/' }

  /** One character that the loop copies, with the quote state it leaves. */
  lemma StripChar(c: char, u: string, was: Quote, quote: Quote)
    requires TurnAt([c] + u, was) == Turn([c], 1, quote)
    ensures Strip([c] + u, was) == [c] + Strip(u, quote)
  {
    assert From([c] + u, 1) == u;
  }

  lemma {:induction false} StripPlain(a: string, b: string)
    requires Plain(a)
    ensures Strip(a + b, Outside) == a + Strip(b, Outside)
  {
    if a == [] {
      assert a + b == b;
    } else {
      assert a + b == [a[0]] + (a[1..] + b);
      StripChar(a[0], a[1..] + b, Outside, Outside);
      StripPlain(a[1..], b);
      Regroup([a[0]], a[1..], Strip(b, Outside));
      assert [a[0]] + a[1..] == a;
    }
  }

  /** The inside of a string literal: no bare closing mark, and no backslash without its character. */
  predicate StringBody(s: string, mark: char) {
    || s == []
    || (s[0] == '\\' && |s| > 1 && StringBody(s[2..], mark))
    || (s[0] != '\\' && s[0] != mark && StringBody(s[1..], mark))
  }

  /** A text whose first turn copies its first part. */
  lemma StripPart(a: string, b: string, was: Quote, quote: Quote)
    requires a != [] && TurnAt(a + b, was) == Turn(a, |a|, quote)
    ensures Strip(a + b, was) == a + Strip(b, quote)
  {
    assert From(a + b, |a|) == b;
  }

  lemma PartTurn(a: string, b: string, mark: char)
    requires (|a| == 1 && a[0] != '\\' && a[0] != mark) || (|a| == 2 && a[0] == '\\')
    ensures TurnAt(a + b, Inside(mark)) == Turn(a, |a|, Inside(mark))
  {
    assert |a| == 2 ==> (a + b)[..2] == a;
  }

  lemma {:induction false} InsideSurvives(mark: char, s: string, u: string)
    requires StringBody(s, mark) && mark != '\\'
    ensures Strip(s + ([mark] + u), Inside(mark)) == s + ([mark] + Strip(u, Outside))
    decreases |s|
  {
    if s == [] {
      assert s + ([mark] + u) == [mark] + u && s + ([mark] + Strip(u, Outside)) == [mark] + Strip(u, Outside);
      StripChar(mark, u, Inside(mark), Outside);
    } else {
      var n := if s[0] == '\\' then 2 else 1;
      var a, b := s[..n], s[n..];
      assert s == a + b;
      InsideSurvives(mark, b, u);
      PartTurn(a, b + ([mark] + u), mark);
      StripPart(a, b + ([mark] + u), Inside(mark), Inside(mark));
      Regroup(a, b, [mark] + u);
      Regroup(a, b, [mark] + Strip(u, Outside));
    }
  }

  /** A string literal survives whole, escapes and comment marks inside it included, and what follows is stripped as
      if it stood alone. */
  lemma StringSurvives(mark: char, s: string, u: string)
    requires QuoteMark(mark) && StringBody(s, mark)
    ensures Strip([mark] + (s + ([mark] + u)), Outside) == [mark] + (s + ([mark] + Strip(u, Outside)))
  {
    StripChar(mark, s + ([mark] + u), Outside, Inside(mark));
    InsideSurvives(mark, s, u);
  }

  /** The first character written is the first character read, unless a slash is blanked. */
  lemma StripHead(t: string)
    requires t != []
    ensures Strip(t, Outside) != []
    ensures Strip(t, Outside)[0] == t[0] || (t[0] == '/' && Strip(t, Outside)[0] == ' ')
  {
  }

  /** Outside quotes, a copied character is copied again: the character after it opens no comment. */
  lemma CopiedAgain(t: string, rest: string)
    requires t != [] && !QuoteMark(t[0]) && !LineOpens(t) && !BlockOpens(t) && rest == Strip(t[1..], Outside)
    ensures TurnAt([t[0]] + rest, Outside) == Turn([t[0]], 1, Outside)
  {
    if |t| > 1 { StripHead(t[1..]); }
  }

  /** Inside quotes the same characters are copied again. */
  lemma QuotedAgain(t: string, quote: Quote, turn: Turn, rest: string)
    requires t != [] && quote.Inside? && turn == TurnAt(t, quote) && (|t| < turn.taken ==> rest == [])
    ensures TurnAt(turn.piece + rest, quote) == turn && From(turn.piece + rest, turn.taken) == rest
  {
  }

  /** What a comment leaves has no quote and no slash. */
  lemma CommentLeavesBlank(t: string, turn: Turn)
    requires (LineOpens(t) || BlockOpens(t)) && turn == TurnAt(t, Outside)
    ensures Plain(turn.piece) && turn.quote == Outside
  {
  }

  /** A text whose turn and remainder are known is stripped accordingly. */
  lemma StripByTurn(t: string, quote: Quote, turn: Turn, u: string)
    requires t != [] && TurnAt(t, quote) == turn && From(t, turn.taken) == u
    ensures Strip(t, quote) == turn.piece + Strip(u, turn.quote)
  {
  }

  lemma StripAgain(t: string, quote: Quote, turn: Turn, rest: string)
    requires t != [] && turn == TurnAt(t, quote) && rest == Strip(From(t, turn.taken), turn.quote)
    requires Strip(rest, turn.quote) == rest
    ensures Strip(turn.piece + rest, quote) == turn.piece + rest
  {
    if quote.Inside? {
      QuotedAgain(t, quote, turn, rest);
      StripByTurn(turn.piece + rest, quote, turn, rest);
    } else if QuoteMark(t[0]) {
      StripChar(t[0], rest, quote, turn.quote);
    } else if LineOpens(t) || BlockOpens(t) {
      CommentLeavesBlank(t, turn);
      StripPlain(turn.piece, rest);
    } else {
      CopiedAgain(t, rest);
      StripChar(t[0], rest, quote, turn.quote);
    }
  }

  lemma {:induction false} StripIdempotent(t: string, quote: Quote)
    ensures Strip(Strip(t, quote), quote) == Strip(t, quote)
    decreases |t|
  {
    if t == [] {
    } else {
      var turn := TurnAt(t, quote);
      StripIdempotent(From(t, turn.taken), turn.quote);
      StripAgain(t, quote, turn, Strip(From(t, turn.taken), turn.quote));
    }
  }

  // ---- Text before other text ----

  /** A block comment closes in the text after its opening. */
  predicate BlockCloses(t: string) { |t| >= 2 && ((t[0] == '*' && t[1] == '/') || BlockCloses(t[1..])) }

  /** The comment or escape that starts here, if any, also ends here. */
  predicate TurnComplete(t: string, quote: Quote)
    requires t != []
  {
    if quote.Inside? then t[0] == '\\' ==> |t| > 1
    else if LineOpens(t) then LineEnd(t) < |t|
    else BlockOpens(t) ==> BlockCloses(t[2..])
  }

  /** The text ends outside quotes and comments. */
  predicate EndsOutside(t: string, quote: Quote)
    decreases |t|
  {
    if t == [] then quote.Outside?
    else TurnComplete(t, quote) && EndsOutside(From(t, TurnAt(t, quote).taken), TurnAt(t, quote).quote)
  }

  /** A slash before it opens no comment. */
  predicate AfterSlash(u: string) { u == [] || (u[0] != '/' && u[0] != '*') }

  lemma {:induction false} LineEndKept(t: string, u: string)
    requires LineEnd(t) < |t|
    ensures LineEnd(t + u) == LineEnd(t)
  {
    if t[0] != '\n' {
      assert (t + u)[1..] == t[1..] + u;
      LineEndKept(t[1..], u);
    }
  }

  lemma {:induction false} BlockEndKept(t: string, u: string)
    requires BlockCloses(t)
    ensures BlockEnd(t + u) == BlockEnd(t)
  {
    if !(t[0] == '*' && t[1] == '/') {
      assert (t + u)[1..] == t[1..] + u;
      BlockEndKept(t[1..], u);
    }
  }

  lemma TurnKept(t: string, u: string, quote: Quote)
    requires t != [] && TurnComplete(t, quote) && AfterSlash(u)
    ensures TurnAt(t + u, quote) == TurnAt(t, quote) && TurnAt(t, quote).taken <= |t|
  {
    if quote.Outside? && LineOpens(t) {
      LineEndKept(t, u);
      assert (t + u)[..LineEnd(t)] == t[..LineEnd(t)];
    } else if quote.Outside? && BlockOpens(t) {
      BlockEndKept(t[2..], u);
      assert (t + u)[2..] == t[2..] + u;
      assert (t + u)[..2 + BlockEnd(t[2..])] == t[..2 + BlockEnd(t[2..])];
    } else if |t| > 1 {
      assert (t + u)[..2] == t[..2];
    }
  }

  lemma FromBefore(t: string, u: string, n: nat)
    requires n <= |t|
    ensures From(t + u, n) == From(t, n) + u
  {
  }

  lemma TurnSplits(t: string, u: string, quote: Quote, turn: Turn, more: string, r: string)
    requires t != [] && turn == TurnAt(t, quote) == TurnAt(t + u, quote) && turn.taken <= |t| && more == From(t, turn.taken)
    requires Strip(more + u, turn.quote) == Strip(more, turn.quote) + r
    ensures Strip(t + u, quote) == Strip(t, quote) + r
  {
    FromBefore(t, u, turn.taken);
    StripByTurn(t, quote, turn, more);
    StripByTurn(t + u, quote, turn, more + u);
    Shift(turn.piece, Strip(t, quote), Strip(more, turn.quote), Strip(more + u, turn.quote), r);
  }

  /** Text that ends outside quotes and comments is stripped on its own, and so is what follows it. */
  lemma {:induction false} StripSplits(t: string, u: string, quote: Quote)
    requires EndsOutside(t, quote) && AfterSlash(u)
    ensures Strip(t + u, quote) == Strip(t, quote) + Strip(u, Outside)
    decreases |t|
  {
    if t == [] {
      assert t + u == u;
    } else {
      var turn := TurnAt(t, quote);
      var more := From(t, turn.taken);
      StripSplits(more, u, turn.quote);
      TurnKept(t, u, quote);
      TurnSplits(t, u, quote, turn, more, Strip(u, Outside));
    }
  }
}
