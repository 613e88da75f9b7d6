/** The canonical JSON text of bin/verify-list-owner-replay-equivalence.js: arrays in order, object
    members sorted by key, leaves as JSON.stringify prints them.

    A string is its sequence of UTF-16 code units. JSON.stringify escapes quotes, backslashes,
    control characters and unpaired surrogates, and copies everything else. A number is the
    text JavaScript prints for it, so two numbers are equal exactly when their texts are. A
    number too large for a double is read as an infinity, which JSON.stringify prints as null.
 */
module CanonicalJson {
  import opened Options
  import opened Sets

  newtype Unit = x: int | 0 <= x < 0x1_0000

  type Text = seq<Unit>

  datatype Json =
    | Null
    | Bool(b: bool)
    | Num(text: Text)
    | Overflow(negative: bool)
    | Str(s: Text)
    | Arr(items: seq<Json>)
    | Obj(members: seq<Member>)

  datatype Member = Member(key: Text, value: Json)

  const QUOTE: Unit := 34
  const BACKSLASH: Unit := 92
  const COMMA: Unit := 44
  const COLON: Unit := 58

  predicate Digit(u: Unit) { 48 <= u <= 57 }

  /** The characters of a printed number: digits, sign, point and exponent. */
  predicate NumberUnit(u: Unit) { Digit(u) || u == 45 || u == 43 || u == 46 || u == 101 }

  predicate NumberText(t: Text) {
    t != [] && (Digit(t[0]) || t[0] == 45) && forall i :: 0 <= i < |t| ==> NumberUnit(t[i])
  }

  /** Numbers are printed numbers and the keys of an object are distinct, all the way down. */
  predicate WellFormed(j: Json) {
    match j
    case Num(t) => NumberText(t)
    case Arr(items) => forall i :: 0 <= i < |items| ==> WellFormed(items[i])
    case Obj(ms) =>
      && (forall i, k :: 0 <= i < k < |ms| ==> ms[i].key != ms[k].key)
      && (forall i :: 0 <= i < |ms| ==> WellFormed(ms[i].value))
    case _ => true
  }

  predicate PrintsNull(j: Json) { j.Null? || j.Overflow? }

  /** Equality up to the order of object members, with an overflowed number counting as null. */
  predicate Equivalent(a: Json, b: Json) {
    match (a, b)
    case (Null, _) => PrintsNull(b)
    case (Overflow(_), _) => PrintsNull(b)
    case (Bool(x), Bool(y)) => x == y
    case (Num(x), Num(y)) => x == y
    case (Str(x), Str(y)) => x == y
    case (Arr(x), Arr(y)) => |x| == |y| && forall i :: 0 <= i < |x| ==> Equivalent(x[i], y[i])
    case (Obj(x), Obj(y)) => |x| == |y| && forall i :: 0 <= i < |x| ==> HasTwin(x[i], y)
    case _ => false
  }

  /** Some member has this one's key and an equivalent value. */
  predicate HasTwin(m: Member, ns: seq<Member>) {
    exists k :: 0 <= k < |ns| && ns[k].key == m.key && Equivalent(m.value, ns[k].value)
  }

  // ---- JSON.stringify of a string ----

  predicate High(u: Unit) { 0xD800 <= u <= 0xDBFF }
  predicate Low(u: Unit) { 0xDC00 <= u <= 0xDFFF }

  function HexDigit(d: int): Unit
    requires 0 <= d < 16
  {
    if d < 10 then (48 + d) as Unit else (87 + d) as Unit
  }

  function Hex4(u: Unit): (t: Text)
    ensures |t| == 4
  {
    var n := u as int;
    [HexDigit(n / 16 / 16 / 16), HexDigit(n / 16 / 16 % 16), HexDigit(n / 16 % 16), HexDigit(n % 16)]
  }

  /** The escape of one unit that is not part of a surrogate pair. */
  function EscapeUnit(u: Unit): Text {
    if u == QUOTE then [BACKSLASH, QUOTE]
    else if u == BACKSLASH then [BACKSLASH, BACKSLASH]
    else if u == 8 then [BACKSLASH, 98]
    else if u == 12 then [BACKSLASH, 102]
    else if u == 10 then [BACKSLASH, 110]
    else if u == 13 then [BACKSLASH, 114]
    else if u == 9 then [BACKSLASH, 116]
    else if u < 32 || High(u) || Low(u) then [BACKSLASH, 117] + Hex4(u)
    else [u]
  }

  function Chunk(u: Unit, paired: bool): Text
    requires paired ==> High(u) || Low(u)
  {
    if paired then [u] else EscapeUnit(u)
  }

  /** The first unit of s is half of a surrogate pair, prev being the unit before it. */
  predicate Paired(prev: Option<Unit>, s: Text)
    requires s != []
  {
    (High(s[0]) && |s| > 1 && Low(s[1])) || (Low(s[0]) && prev.Some? && High(prev.value))
  }

  function Escape(prev: Option<Unit>, s: Text): Text
    decreases |s|
  {
    if s == [] then [] else Chunk(s[0], Paired(prev, s)) + Escape(Some(s[0]), s[1..])
  }

  function Quote(s: Text): Text {
    [QUOTE] + Escape(None, s) + [QUOTE]
  }

  // ---- The canonical text ----

  datatype Pair = Pair(key: Text, text: Text)

  /** Order of strings by code units, as the default sort compares them. */
  predicate Lt(a: Text, b: Text) {
    b != [] && (a == [] || a[0] < b[0] || (a[0] == b[0] && Lt(a[1..], b[1..])))
  }

  function Insert(p: Pair, ps: seq<Pair>): seq<Pair> {
    if ps == [] || Lt(p.key, ps[0].key) then [p] + ps else [ps[0]] + Insert(p, ps[1..])
  }

  function SortPairs(ps: seq<Pair>): seq<Pair> {
    if ps == [] then [] else Insert(ps[0], SortPairs(ps[1..]))
  }

  function Canon(j: Json): Text {
    match j
    case Null => [110, 117, 108, 108]
    case Overflow(_) => [110, 117, 108, 108]
    case Bool(b) => if b then [116, 114, 117, 101] else [102, 97, 108, 115, 101]
    case Num(t) => t
    case Str(s) => Quote(s)
    case Arr(items) => [91] + CanonItems(items) + [93]
    case Obj(ms) => [123] + JoinPairs(SortPairs(Pairs(ms))) + [125]
  }

  function CanonItems(items: seq<Json>): Text {
    if items == [] then []
    else Canon(items[0]) + if |items| == 1 then [] else [COMMA] + CanonItems(items[1..])
  }

  /** Each member with its value's canonical text. */
  function Pairs(ms: seq<Member>): (ps: seq<Pair>)
    ensures |ps| == |ms|
  {
    if ms == [] then [] else [Pair(ms[0].key, Canon(ms[0].value))] + Pairs(ms[1..])
  }

  function PairText(p: Pair): Text {
    Quote(p.key) + [COLON] + p.text
  }

  function JoinPairs(ps: seq<Pair>): Text {
    if ps == [] then []
    else PairText(ps[0]) + if |ps| == 1 then [] else [COMMA] + JoinPairs(ps[1..])
  }

  // ---- Sorting ----

  lemma {:induction false} LtIrreflexive(a: Text)
    ensures !Lt(a, a)
  {
    if a == [] {
    } else {
      LtIrreflexive(a[1..]);
    }
  }

  lemma {:induction false} LtTransitive(a: Text, b: Text, c: Text)
    requires Lt(a, b) && Lt(b, c)
    ensures Lt(a, c)
    decreases |a|
  {
    if a != [] && a[0] == b[0] && b[0] == c[0] { LtTransitive(a[1..], b[1..], c[1..]); }
  }

  lemma {:induction false} LtTotal(a: Text, b: Text)
    ensures a == b || Lt(a, b) || Lt(b, a)
    decreases |a|
  {
    if a != [] && b != [] && a[0] == b[0] {
      LtTotal(a[1..], b[1..]);
      if a[1..] == b[1..] { assert a == [a[0]] + a[1..] && b == [b[0]] + b[1..]; }
    }
  }

  /** The texts are the same before k, where the first ends or has the smaller code unit. */
  ghost predicate PrecedesAt(a: Text, b: Text, k: nat) {
    k <= |a| && k < |b| && (forall i :: 0 <= i < k ==> a[i] == b[i]) && (k == |a| || a[k] < b[k])
  }

  ghost predicate Precedes(a: Text, b: Text) { exists k: nat :: PrecedesAt(a, b, k) }

  lemma PrecedesTail(a: Text, b: Text, k: nat)
    requires a != [] && b != [] && a[0] == b[0]
    ensures PrecedesAt(a[1..], b[1..], k) <==> PrecedesAt(a, b, k + 1)
  {
    if PrecedesAt(a, b, k + 1) {
      forall i | 0 <= i < k ensures a[1..][i] == b[1..][i] { assert a[i + 1] == b[i + 1]; }
    }
    if PrecedesAt(a[1..], b[1..], k) {
      forall i | 0 <= i < k + 1 ensures a[i] == b[i] {
        if i > 0 { assert a[1..][i - 1] == b[1..][i - 1]; }
      }
    }
  }

  lemma {:induction false} LtIsPrecedes(a: Text, b: Text)
    ensures Lt(a, b) <==> Precedes(a, b)
    decreases |a|
  {
    if a != [] && b != [] && a[0] == b[0] {
      LtIsPrecedes(a[1..], b[1..]);
      forall k: nat ensures PrecedesAt(a[1..], b[1..], k) <==> PrecedesAt(a, b, k + 1) { PrecedesTail(a, b, k); }
      if k: nat :| PrecedesAt(a, b, k) { assert PrecedesAt(a[1..], b[1..], k - 1); }
    } else {
      assert Lt(a, b) ==> PrecedesAt(a, b, 0);
    }
  }

  ghost predicate Ascending(ps: seq<Pair>) {
    forall i, k :: 0 <= i < k < |ps| ==> Lt(ps[i].key, ps[k].key)
  }

  lemma {:induction false} InsertMembers(p: Pair, ps: seq<Pair>)
    ensures |Insert(p, ps)| == |ps| + 1
    ensures forall q :: q in Insert(p, ps) <==> q == p || q in ps
  {
    if !(ps == [] || Lt(p.key, ps[0].key)) {
      InsertMembers(p, ps[1..]);
      assert ps == [ps[0]] + ps[1..];
    }
  }

  lemma {:induction false} InsertAscending(p: Pair, ps: seq<Pair>)
    requires Ascending(ps) && forall q :: q in ps ==> q.key != p.key
    ensures Ascending(Insert(p, ps))
  {
    if ps == [] {
    } else if Lt(p.key, ps[0].key) {
      forall k | 0 <= k < |ps| ensures Lt(p.key, ps[k].key) {
        if k > 0 { LtTransitive(p.key, ps[0].key, ps[k].key); }
      }
    } else {
      assert ps[0] in ps;
      LtTotal(p.key, ps[0].key);
      assert forall q :: q in ps[1..] ==> q in ps;
      InsertAscending(p, ps[1..]);
      InsertMembers(p, ps[1..]);
      var rest := Insert(p, ps[1..]);
      forall k | 0 <= k < |rest| ensures Lt(ps[0].key, rest[k].key) {
        assert rest[k] in rest;
        if rest[k] != p { var i :| 1 <= i < |ps| && ps[i] == rest[k]; }
      }
    }
  }

  ghost predicate DistinctKeys(ps: seq<Pair>) {
    forall i, k :: 0 <= i < k < |ps| ==> ps[i].key != ps[k].key
  }

  /** The sort gives the same members, their keys strictly ascending by code units. */
  lemma SortIsSorted(ps: seq<Pair>)
    requires DistinctKeys(ps)
    ensures |SortPairs(ps)| == |ps| && forall q :: q in SortPairs(ps) <==> q in ps
    ensures forall i, k :: 0 <= i < k < |ps| ==> Precedes(SortPairs(ps)[i].key, SortPairs(ps)[k].key)
  {
    var s := SortPairs(ps);
    SortAscending(ps);
    forall i, k | 0 <= i < k < |s| ensures Precedes(s[i].key, s[k].key) { LtIsPrecedes(s[i].key, s[k].key); }
  }

  lemma {:induction false} SortAscending(ps: seq<Pair>)
    requires DistinctKeys(ps)
    ensures Ascending(SortPairs(ps)) && |SortPairs(ps)| == |ps|
    ensures forall q :: q in SortPairs(ps) <==> q in ps
  {
    if ps == [] {
    } else {
      var rest := ps[1..];
      SortAscending(rest);
      forall q | q in SortPairs(rest) ensures q.key != ps[0].key {
        var i :| 0 <= i < |rest| && rest[i] == q;
        assert ps[i + 1] == q;
      }
      InsertAscending(ps[0], SortPairs(rest));
      InsertMembers(ps[0], SortPairs(rest));
      assert ps == [ps[0]] + rest;
    }
  }

  /** A set of members has one ascending listing. */
  lemma {:induction false} AscendingUnique(a: seq<Pair>, b: seq<Pair>)
    requires Ascending(a) && Ascending(b) && forall q :: q in a <==> q in b
    ensures a == b
  {
    assert (a != [] ==> a[0] in b) && (b != [] ==> b[0] in a);
    if a != [] {
      HeadsAgree(a, b);
      forall q ensures q in a[1..] <==> q in b[1..] {
        TailMember(a, q);
        TailMember(b, q);
      }
      AscendingUnique(a[1..], b[1..]);
    }
  }

  lemma HeadsAgree(a: seq<Pair>, b: seq<Pair>)
    requires Ascending(a) && Ascending(b) && a != [] && b != [] && a[0] in b && b[0] in a
    ensures a[0] == b[0]
  {
    var i :| 0 <= i < |b| && b[i] == a[0];
    var k :| 0 <= k < |a| && a[k] == b[0];
    if i > 0 && k > 0 {
      LtTransitive(b[0].key, a[0].key, b[0].key);
      LtIrreflexive(b[0].key);
    }
  }

  lemma TailMember(a: seq<Pair>, q: Pair)
    requires Ascending(a) && a != []
    ensures q in a[1..] <==> q in a && q != a[0]
  {
    if q in a[1..] {
      var i :| 1 <= i < |a| && a[i] == q;
      LtIrreflexive(q.key);
    }
    assert a == [a[0]] + a[1..];
  }

  // ---- Equivalent values print the same ----

  lemma {:induction false} PairsAt(ms: seq<Member>, i: nat)
    requires i < |ms|
    ensures Pairs(ms)[i] == Pair(ms[i].key, Canon(ms[i].value))
  {
    if i == 0 {
    } else {
      PairsAt(ms[1..], i - 1);
    }
  }

  lemma PairsDistinct(ms: seq<Member>)
    requires WellFormed(Obj(ms))
    ensures DistinctKeys(Pairs(ms))
  {
    forall i, k | 0 <= i < k < |ms| ensures Pairs(ms)[i].key != Pairs(ms)[k].key {
      PairsAt(ms, i);
      PairsAt(ms, k);
    }
  }

  lemma {:induction false} ItemsSame(x: seq<Json>, y: seq<Json>)
    requires |x| == |y| && forall i :: 0 <= i < |x| ==> Canon(x[i]) == Canon(y[i])
    ensures CanonItems(x) == CanonItems(y)
  {
    if x == [] {
    } else {
      ItemsSame(x[1..], y[1..]);
    }
  }

  function KeySet(ms: seq<Member>): set<Text> {
    set i | 0 <= i < |ms| :: ms[i].key
  }

  lemma {:induction false} KeySetSize(ms: seq<Member>)
    requires forall i, k :: 0 <= i < k < |ms| ==> ms[i].key != ms[k].key
    ensures |KeySet(ms)| == |ms|
  {
    if ms == [] {
    } else {
      var k := |ms| - 1;
      KeySetSize(ms[..k]);
      assert KeySet(ms) == KeySet(ms[..k]) + {ms[k].key};
    }
  }

  /** Some member has this one's key and text. */
  ghost predicate Printed(m: Member, ns: seq<Member>) {
    exists k :: 0 <= k < |ns| && ns[k].key == m.key && Canon(m.value) == Canon(ns[k].value)
  }

  lemma {:induction false} PairPrinted(x: seq<Member>, y: seq<Member>, q: Pair)
    requires q in Pairs(x) && forall i :: 0 <= i < |x| ==> Printed(x[i], y)
    ensures q in Pairs(y)
  {
    var i :| 0 <= i < |x| && Pairs(x)[i] == q;
    PairsAt(x, i);
    assert Printed(x[i], y);
    var k :| 0 <= k < |y| && y[k].key == x[i].key && Canon(x[i].value) == Canon(y[k].value);
    PairsAt(y, k);
  }

  lemma {:induction false} PairMatched(x: seq<Member>, y: seq<Member>, q: Pair)
    requires q in Pairs(y) && KeySet(x) == KeySet(y)
    requires forall i, k :: 0 <= i < k < |y| ==> y[i].key != y[k].key
    requires forall i :: 0 <= i < |x| ==> Printed(x[i], y)
    ensures q in Pairs(x)
  {
    var k :| 0 <= k < |y| && Pairs(y)[k] == q;
    PairsAt(y, k);
    assert y[k].key in KeySet(x);
    var i :| 0 <= i < |x| && x[i].key == y[k].key;
    PairsAt(x, i);
    assert Printed(x[i], y);
  }

  /** Objects with equivalent members have the same pairs, so they sort and join alike. */
  lemma {:induction false} MembersSame(x: seq<Member>, y: seq<Member>)
    requires WellFormed(Obj(x)) && WellFormed(Obj(y)) && |x| == |y|
    requires forall i :: 0 <= i < |x| ==> Printed(x[i], y)
    ensures SortPairs(Pairs(x)) == SortPairs(Pairs(y))
  {
    KeySetSize(x);
    KeySetSize(y);
    forall i | 0 <= i < |x| ensures x[i].key in KeySet(y) { assert Printed(x[i], y); }
    SubsetSize(KeySet(x), KeySet(y));
    forall q ensures q in Pairs(x) <==> q in Pairs(y) {
      if q in Pairs(x) { PairPrinted(x, y, q); }
      if q in Pairs(y) { PairMatched(x, y, q); }
    }
    PairsDistinct(x);
    PairsDistinct(y);
    SortAscending(Pairs(x));
    SortAscending(Pairs(y));
    AscendingUnique(SortPairs(Pairs(x)), SortPairs(Pairs(y)));
  }

  lemma {:induction false} EquivalentSameText(a: Json, b: Json)
    requires WellFormed(a) && WellFormed(b) && Equivalent(a, b)
    ensures Canon(a) == Canon(b)
  {
    match (a, b) {
      case (Arr(x), Arr(y)) =>
        forall i | 0 <= i < |x| ensures Canon(x[i]) == Canon(y[i]) { EquivalentSameText(x[i], y[i]); }
        ItemsSame(x, y);
      case (Obj(x), Obj(y)) =>
        forall i | 0 <= i < |x| ensures Printed(x[i], y) {
          assert HasTwin(x[i], y);
          var k :| 0 <= k < |y| && y[k].key == x[i].key && Equivalent(x[i].value, y[k].value);
          EquivalentSameText(x[i].value, y[k].value);
        }
        MembersSame(x, y);
      case _ =>
    }
  }

  // ---- The text determines the value ----

  lemma Cancel(a: Text, b: Text, x: Text, y: Text)
    requires |a| == |b| && a + x == b + y
    ensures a == b && x == y
  {
    assert a == (a + x)[..|a|] && b == (b + y)[..|a|];
    assert x == (a + x)[|a|..] && y == (b + y)[|a|..];
  }

  lemma Regroup(a: Text, b: Text, c: Text)
    ensures (a + b) + c == a + (b + c)
  {
  }

  lemma HexDigitInjective(c: int, d: int)
    requires 0 <= c < 16 && 0 <= d < 16 && HexDigit(c) == HexDigit(d)
    ensures c == d
  {
  }

  lemma HexInjective(u: Unit, v: Unit)
    requires Hex4(u) == Hex4(v)
    ensures u == v
  {
    var n, m := u as int, v as int;
    assert Hex4(u)[0] == Hex4(v)[0] && Hex4(u)[1] == Hex4(v)[1] && Hex4(u)[2] == Hex4(v)[2] && Hex4(u)[3] == Hex4(v)[3];
    HexDigitInjective(n / 16 / 16 / 16, m / 16 / 16 / 16);
    HexDigitInjective(n / 16 / 16 % 16, m / 16 / 16 % 16);
    HexDigitInjective(n / 16 % 16, m / 16 % 16);
    HexDigitInjective(n % 16, m % 16);
  }

  /** An escaped unit starts with a backslash, any other is copied; neither starts with a quote. */
  lemma ChunkHead(u: Unit, p: bool)
    requires p ==> High(u) || Low(u)
    ensures Chunk(u, p) != [] && Chunk(u, p)[0] != QUOTE
    ensures Chunk(u, p)[0] == BACKSLASH <==> Chunk(u, p) != [u]
    ensures Chunk(u, p) != [u] ==> Chunk(u, p) == EscapeUnit(u)
  {
  }

  lemma EscapesCancel(u: Unit, v: Unit, x: Text, y: Text)
    requires EscapeUnit(u) != [u] && EscapeUnit(v) != [v] && EscapeUnit(u) + x == EscapeUnit(v) + y
    ensures u == v && x == y
  {
    assert (EscapeUnit(u) + x)[1] == EscapeUnit(u)[1] && (EscapeUnit(v) + y)[1] == EscapeUnit(v)[1];
    Cancel(EscapeUnit(u), EscapeUnit(v), x, y);
    if |EscapeUnit(u)| == 6 {
      assert EscapeUnit(u)[2..] == Hex4(u) && EscapeUnit(v)[2..] == Hex4(v);
      HexInjective(u, v);
    }
  }

  lemma ChunksCancel(u: Unit, p: bool, v: Unit, q: bool, x: Text, y: Text)
    requires (p ==> High(u) || Low(u)) && (q ==> High(v) || Low(v))
    requires Chunk(u, p) + x == Chunk(v, q) + y
    ensures u == v && x == y
  {
    ChunkHead(u, p);
    ChunkHead(v, q);
    assert (Chunk(u, p) + x)[0] == Chunk(u, p)[0] && (Chunk(v, q) + y)[0] == Chunk(v, q)[0];
    if Chunk(u, p) == [u] {
      Cancel([u], [v], x, y);
    } else {
      EscapesCancel(u, v, x, y);
    }
  }

  lemma EscapeHead(p: Option<Unit>, s: Text, x: Text)
    ensures var a := Escape(p, s) + ([QUOTE] + x);
            if s == [] then a[0] == QUOTE && a[1..] == x else a[0] != QUOTE
  {
    if s != [] {
      ChunkHead(s[0], Paired(p, s));
      Regroup(Chunk(s[0], Paired(p, s)), Escape(Some(s[0]), s[1..]), [QUOTE] + x);
    }
  }

  /** A quoted string ends where its text says and is determined by it. */
  lemma {:induction false} EscapeCancels(p: Option<Unit>, s: Text, q: Option<Unit>, t: Text, x: Text, y: Text)
    requires Escape(p, s) + ([QUOTE] + x) == Escape(q, t) + ([QUOTE] + y)
    ensures s == t && x == y
    decreases |s|
  {
    EscapeHead(p, s, x);
    EscapeHead(q, t, y);
    if s != [] {
      var e, f := Escape(Some(s[0]), s[1..]), Escape(Some(t[0]), t[1..]);
      Regroup(Chunk(s[0], Paired(p, s)), e, [QUOTE] + x);
      Regroup(Chunk(t[0], Paired(q, t)), f, [QUOTE] + y);
      ChunksCancel(s[0], Paired(p, s), t[0], Paired(q, t), e + ([QUOTE] + x), f + ([QUOTE] + y));
      EscapeCancels(Some(s[0]), s[1..], Some(t[0]), t[1..], x, y);
      assert s == [s[0]] + s[1..] && t == [t[0]] + t[1..];
    }
  }

  lemma QuoteUnfolds(s: Text, x: Text)
    ensures Quote(s) + x == [QUOTE] + (Escape(None, s) + ([QUOTE] + x))
  {
    var e := Escape(None, s);
    Regroup([QUOTE] + e, [QUOTE], x);
    Regroup([QUOTE], e, [QUOTE] + x);
  }

  lemma QuotesCancel(s: Text, t: Text, x: Text, y: Text)
    requires Quote(s) + x == Quote(t) + y
    ensures s == t && x == y
  {
    QuoteUnfolds(s, x);
    QuoteUnfolds(t, y);
    Cancel([QUOTE], [QUOTE], Escape(None, s) + ([QUOTE] + x), Escape(None, t) + ([QUOTE] + y));
    EscapeCancels(None, s, None, t, x, y);
  }

  /** What may follow a value: nothing, a comma or a closing bracket. */
  predicate Delimited(r: Text) {
    r == [] || r[0] == COMMA || r[0] == 93 || r[0] == 125
  }

  /** How many number characters a text starts with. */
  function NumberLength(t: Text): nat {
    if t == [] || !NumberUnit(t[0]) then 0 else 1 + NumberLength(t[1..])
  }

  lemma {:induction false} NumberEnds(s: Text, x: Text)
    requires (forall i :: 0 <= i < |s| ==> NumberUnit(s[i])) && Delimited(x)
    ensures NumberLength(s + x) == |s|
  {
    if s == [] {
      assert s + x == x;
    } else {
      NumberEnds(s[1..], x);
      assert (s + x)[1..] == s[1..] + x;
    }
  }

  lemma NumbersCancel(s: Text, t: Text, x: Text, y: Text)
    requires NumberText(s) && NumberText(t) && Delimited(x) && Delimited(y) && s + x == t + y
    ensures s == t && x == y
  {
    NumberEnds(s, x);
    NumberEnds(t, y);
    Cancel(s, t, x, y);
  }

  /** The first character tells the kind of value. */
  function KindOfHead(u: Unit): int {
    if u == 110 then 1 else if u == 116 then 2 else if u == 102 then 3 else if u == QUOTE then 5
    else if u == 91 then 6 else if u == 123 then 7 else if Digit(u) || u == 45 then 4 else 0
  }

  function KindOf(j: Json): (k: int)
    ensures k > 0
  {
    match j
    case Null => 1
    case Overflow(_) => 1
    case Bool(b) => if b then 2 else 3
    case Num(_) => 4
    case Str(_) => 5
    case Arr(_) => 6
    case Obj(_) => 7
  }

  lemma CanonHead(j: Json)
    requires WellFormed(j)
    ensures Canon(j) != [] && KindOfHead(Canon(j)[0]) == KindOf(j)
  {
  }

  lemma {:induction false} CanonCancels(a: Json, b: Json, x: Text, y: Text)
    requires WellFormed(a) && WellFormed(b) && Delimited(x) && Delimited(y)
    requires Canon(a) + x == Canon(b) + y
    ensures Equivalent(a, b) && Canon(a) == Canon(b) && x == y
    decreases a
  {
    CanonHead(a);
    CanonHead(b);
    assert (Canon(a) + x)[0] == Canon(a)[0] && (Canon(b) + y)[0] == Canon(b)[0];
    assert KindOf(a) == KindOf(b);
    match a {
      case Num(s) => NumbersCancel(s, b.text, x, y);
      case Str(s) => QuotesCancel(s, b.s, x, y);
      case Arr(v) =>
        Bracketed(91, CanonItems(v), 93, x);
        Bracketed(91, CanonItems(b.items), 93, y);
        Cancel([91], [91], CanonItems(v) + ([93] + x), CanonItems(b.items) + ([93] + y));
        ItemsCancel(v, b.items, x, y);
        EquivalentSameText(a, b);
      case Obj(v) =>
        ObjectsCancel(a, b, x, y);
        EquivalentSameText(a, b);
      case _ => Cancel(Canon(a), Canon(b), x, y);
    }
  }

  function Rest(items: seq<Json>): Text {
    if |items| <= 1 then [] else [COMMA] + CanonItems(items[1..])
  }

  lemma Bracketed(open: Unit, body: Text, close: Unit, x: Text)
    ensures ([open] + body + [close]) + x == [open] + (body + ([close] + x))
  {
    Regroup([open] + body, [close], x);
    Regroup([open], body, [close] + x);
  }

  lemma NotClosing(j: Json, z: Text)
    requires WellFormed(j)
    ensures Canon(j) + z != [] && (Canon(j) + z)[0] != 93
  {
    CanonHead(j);
  }

  lemma ItemsUnfold(v: seq<Json>)
    requires v != []
    ensures CanonItems(v) == Canon(v[0]) + Rest(v)
  {
  }

  lemma ItemsHead(v: seq<Json>, x: Text)
    requires v != [] ==> WellFormed(v[0])
    ensures var a := CanonItems(v) + ([93] + x);
            if v == [] then a[0] == 93 && a[1..] == x else a[0] != 93 && a == Canon(v[0]) + (Rest(v) + ([93] + x))
  {
    if v != [] {
      NotClosing(v[0], Rest(v) + ([93] + x));
      Regroup(Canon(v[0]), Rest(v), [93] + x);
      ItemsUnfold(v);
    } else {
      var a := CanonItems(v) + ([93] + x);
      assert a == [93] + x;
    }
  }

  lemma RestHead(v: seq<Json>, x: Text)
    requires v != []
    ensures var p := Rest(v) + ([93] + x);
            if |v| == 1 then p[0] == 93 && p[1..] == x else p[0] == COMMA && p[1..] == CanonItems(v[1..]) + ([93] + x)
  {
    if |v| > 1 {
      Regroup([COMMA], CanonItems(v[1..]), [93] + x);
    }
  }

  lemma {:induction false} ItemsCancel(v: seq<Json>, w: seq<Json>, x: Text, y: Text)
    requires (forall i :: 0 <= i < |v| ==> WellFormed(v[i])) && (forall i :: 0 <= i < |w| ==> WellFormed(w[i]))
    requires CanonItems(v) + ([93] + x) == CanonItems(w) + ([93] + y)
    ensures |v| == |w| && (forall i :: 0 <= i < |v| ==> Equivalent(v[i], w[i])) && x == y
    decreases v
  {
    ItemsHead(v, x);
    ItemsHead(w, y);
    if v != [] {
      var p, q := Rest(v) + ([93] + x), Rest(w) + ([93] + y);
      RestHead(v, x);
      RestHead(w, y);
      CanonCancels(v[0], w[0], p, q);
      if |v| > 1 {
        ItemsCancel(v[1..], w[1..], x, y);
        assert forall i :: 0 < i < |v| ==> v[i] == v[1..][i - 1] && w[i] == w[1..][i - 1];
      }
    }
  }

  /** Each pair is a member of the object with its value's text. */
  ghost predicate PairsOf(ps: seq<Pair>, ms: seq<Member>) {
    forall i :: 0 <= i < |ps| ==> PairOf(ps[i], ms)
  }

  ghost predicate PairOf(p: Pair, ms: seq<Member>) {
    exists k :: 0 <= k < |ms| && p == Pair(ms[k].key, Canon(ms[k].value))
  }

  /** The i-th pairs of two lists carry one key and equivalent values. */
  ghost predicate Twins(p: Pair, q: Pair, ms: seq<Member>, ns: seq<Member>) {
    exists i, k :: 0 <= i < |ms| && 0 <= k < |ns| && ms[i].key == p.key == q.key == ns[k].key && Equivalent(ms[i].value, ns[k].value)
  }

  function RestPairs(ps: seq<Pair>): Text {
    if |ps| <= 1 then [] else [COMMA] + JoinPairs(ps[1..])
  }

  /** The joined pairs, opened up to their first key and value. */
  lemma JoinHead(ps: seq<Pair>, x: Text)
    ensures var a := JoinPairs(ps) + ([125] + x);
            if ps == [] then a[0] == 125 && a[1..] == x
            else a[0] == QUOTE && a == Quote(ps[0].key) + ([COLON] + (ps[0].text + (RestPairs(ps) + ([125] + x))))
  {
    if ps != [] {
      var k, t, r, z := Quote(ps[0].key), ps[0].text, RestPairs(ps), [125] + x;
      Regroup(k + [COLON] + t, r, z);
      Regroup(k + [COLON], t, r + z);
      Regroup(k, [COLON], t + (r + z));
      assert k[0] == QUOTE;
    }
  }

  lemma RestPairsHead(ps: seq<Pair>, x: Text)
    requires ps != []
    ensures var p := RestPairs(ps) + ([125] + x);
            if |ps| == 1 then p[0] == 125 && p[1..] == x else p[0] == COMMA && p[1..] == JoinPairs(ps[1..]) + ([125] + x)
  {
    if |ps| > 1 {
      Regroup([COMMA], JoinPairs(ps[1..]), [125] + x);
    }
  }

  lemma {:induction false} PairsCancel(a: Json, b: Json, ps: seq<Pair>, qs: seq<Pair>, x: Text, y: Text)
    requires a.Obj? && b.Obj? && WellFormed(a) && WellFormed(b) && PairsOf(ps, a.members) && PairsOf(qs, b.members)
    requires JoinPairs(ps) + ([125] + x) == JoinPairs(qs) + ([125] + y)
    ensures |ps| == |qs| && x == y
    ensures forall i :: 0 <= i < |ps| ==> Twins(ps[i], qs[i], a.members, b.members)
    decreases a, |ps|
  {
    JoinHead(ps, x);
    JoinHead(qs, y);
    if ps != [] {
      var u, v := RestPairs(ps) + ([125] + x), RestPairs(qs) + ([125] + y);
      RestPairsHead(ps, x);
      RestPairsHead(qs, y);
      FirstPairsCancel(a, b, ps, qs, u, v);
      if |ps| > 1 {
        TailPairsOf(ps, a.members);
        TailPairsOf(qs, b.members);
        PairsCancel(a, b, ps[1..], qs[1..], x, y);
        forall i | 0 < i < |ps| ensures Twins(ps[i], qs[i], a.members, b.members) {
          assert ps[i] == ps[1..][i - 1] && qs[i] == qs[1..][i - 1];
        }
      }
    }
  }

  lemma TailPairsOf(ps: seq<Pair>, ms: seq<Member>)
    requires PairsOf(ps, ms) && ps != []
    ensures PairsOf(ps[1..], ms)
  {
    forall i | 0 <= i < |ps[1..]| ensures PairOf(ps[1..][i], ms) {
      assert ps[1..][i] == ps[i + 1];
    }
  }

  lemma {:induction false} FirstPairsCancel(a: Json, b: Json, ps: seq<Pair>, qs: seq<Pair>, u: Text, v: Text)
    requires a.Obj? && b.Obj? && WellFormed(a) && WellFormed(b)
    requires ps != [] && qs != [] && PairsOf(ps, a.members) && PairsOf(qs, b.members) && Delimited(u) && Delimited(v)
    requires Quote(ps[0].key) + ([COLON] + (ps[0].text + u)) == Quote(qs[0].key) + ([COLON] + (qs[0].text + v))
    ensures u == v && Twins(ps[0], qs[0], a.members, b.members)
    decreases a, 0
  {
    QuotesCancel(ps[0].key, qs[0].key, [COLON] + (ps[0].text + u), [COLON] + (qs[0].text + v));
    Cancel([COLON], [COLON], ps[0].text + u, qs[0].text + v);
    assert PairOf(ps[0], a.members) && PairOf(qs[0], b.members);
    var i :| 0 <= i < |a.members| && ps[0] == Pair(a.members[i].key, Canon(a.members[i].value));
    var k :| 0 <= k < |b.members| && qs[0] == Pair(b.members[k].key, Canon(b.members[k].value));
    CanonCancels(a.members[i].value, b.members[k].value, u, v);
  }

  lemma SortedPairsOf(ms: seq<Member>)
    requires WellFormed(Obj(ms))
    ensures PairsOf(SortPairs(Pairs(ms)), ms) && |SortPairs(Pairs(ms))| == |ms|
    ensures forall i :: 0 <= i < |ms| ==> Pair(ms[i].key, Canon(ms[i].value)) in SortPairs(Pairs(ms))
  {
    PairsDistinct(ms);
    SortAscending(Pairs(ms));
    var ps := SortPairs(Pairs(ms));
    forall i | 0 <= i < |ps| ensures PairOf(ps[i], ms) {
      assert ps[i] in Pairs(ms);
      var k :| 0 <= k < |ms| && Pairs(ms)[k] == ps[i];
      PairsAt(ms, k);
    }
    forall i | 0 <= i < |ms| ensures Pair(ms[i].key, Canon(ms[i].value)) in ps {
      PairsAt(ms, i);
      assert Pairs(ms)[i] in Pairs(ms);
    }
  }

  lemma {:induction false} ObjectsCancel(a: Json, b: Json, x: Text, y: Text)
    requires a.Obj? && b.Obj? && WellFormed(a) && WellFormed(b) && Canon(a) + x == Canon(b) + y
    ensures Equivalent(a, b) && x == y
    decreases a, |a.members| + 1
  {
    var ps, qs := SortPairs(Pairs(a.members)), SortPairs(Pairs(b.members));
    Bracketed(123, JoinPairs(ps), 125, x);
    Bracketed(123, JoinPairs(qs), 125, y);
    Cancel([123], [123], JoinPairs(ps) + ([125] + x), JoinPairs(qs) + ([125] + y));
    SortedPairsOf(a.members);
    SortedPairsOf(b.members);
    PairsCancel(a, b, ps, qs, x, y);
    TwinsEquivalent(a.members, b.members, ps, qs);
  }

  lemma TwinOf(ms: seq<Member>, ns: seq<Member>, p: Pair, q: Pair, i: nat)
    requires i < |ms| && p.key == ms[i].key && Twins(p, q, ms, ns)
    requires forall i, k :: 0 <= i < k < |ms| ==> ms[i].key != ms[k].key
    ensures HasTwin(ms[i], ns)
  {
    var h, k :| 0 <= h < |ms| && 0 <= k < |ns| && ms[h].key == p.key == q.key == ns[k].key && Equivalent(ms[h].value, ns[k].value);
    assert h == i;
  }

  lemma TwinsEquivalent(ms: seq<Member>, ns: seq<Member>, ps: seq<Pair>, qs: seq<Pair>)
    requires |ms| == |ns| == |ps| == |qs|
    requires forall i, k :: 0 <= i < k < |ms| ==> ms[i].key != ms[k].key
    requires forall i :: 0 <= i < |ps| ==> Twins(ps[i], qs[i], ms, ns)
    requires forall i :: 0 <= i < |ms| ==> Pair(ms[i].key, Canon(ms[i].value)) in ps
    ensures Equivalent(Obj(ms), Obj(ns))
  {
    forall i | 0 <= i < |ms| ensures HasTwin(ms[i], ns) {
      var j :| 0 <= j < |ps| && ps[j] == Pair(ms[i].key, Canon(ms[i].value));
      TwinOf(ms, ns, ps[j], qs[j], i);
    }
  }

  /** Two JSON values have the same canonical text EXACTLY when they are equal up to member order, overflowed
      numbers counting as null. */
  lemma CanonicalIff(a: Json, b: Json)
    requires WellFormed(a) && WellFormed(b)
    ensures Canon(a) == Canon(b) <==> Equivalent(a, b)
  {
    if Equivalent(a, b) { EquivalentSameText(a, b); }
    if Canon(a) == Canon(b) { CanonCancels(a, b, [], []); }
  }

  /** Equality up to the order of object members, an infinity being equal to itself alone. */
  predicate Same(a: Json, b: Json) {
    match (a, b)
    case (Arr(x), Arr(y)) => |x| == |y| && forall i :: 0 <= i < |x| ==> Same(x[i], y[i])
    case (Obj(x), Obj(y)) => |x| == |y| && forall i :: 0 <= i < |x| ==> SameMember(x[i], y)
    case _ => a == b
  }

  predicate SameMember(m: Member, ns: seq<Member>) {
    exists k :: 0 <= k < |ns| && ns[k].key == m.key && Same(m.value, ns[k].value)
  }

  /** No number in the value overflowed. */
  predicate Finite(j: Json) {
    match j
    case Overflow(_) => false
    case Arr(items) => forall i :: 0 <= i < |items| ==> Finite(items[i])
    case Obj(ms) => forall i :: 0 <= i < |ms| ==> Finite(ms[i].value)
    case _ => true
  }

  lemma {:induction false} FiniteIsSame(a: Json, b: Json)
    requires Finite(a) && Finite(b)
    ensures Equivalent(a, b) <==> Same(a, b)
  {
    match (a, b) {
      case (Arr(x), Arr(y)) =>
        if |x| == |y| {
          forall i | 0 <= i < |x| ensures Equivalent(x[i], y[i]) <==> Same(x[i], y[i]) { FiniteIsSame(x[i], y[i]); }
        }
      case (Obj(x), Obj(y)) =>
        forall i | 0 <= i < |x| ensures HasTwin(x[i], y) <==> SameMember(x[i], y) {
          forall k | 0 <= k < |y| ensures Equivalent(x[i].value, y[k].value) <==> Same(x[i].value, y[k].value) {
            FiniteIsSame(x[i].value, y[k].value);
          }
        }
      case _ =>
    }
  }

  /** Without overflowed numbers, one text is one value up to member order. */
  lemma CanonicalFiniteIff(a: Json, b: Json)
    requires WellFormed(a) && WellFormed(b) && Finite(a) && Finite(b)
    ensures Canon(a) == Canon(b) <==> Same(a, b)
  {
    CanonicalIff(a, b);
    FiniteIsSame(a, b);
  }

  /** An overflowed number is a value of its own and shares its text with null, alone or inside any array. */
  lemma OverflowReadsAsNull(negative: bool)
    ensures !Same(Overflow(negative), Null) && Canon(Overflow(negative)) == Canon(Null)
    ensures Canon(Arr([Overflow(negative)])) == Canon(Arr([Null]))
  {
    EquivalentSameText(Arr([Overflow(negative)]), Arr([Null]));
  }
}
