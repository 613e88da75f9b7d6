/** A reader of JSON text without white space (sections 3 to 7 of RFC 8259), and the canonical text read back.

    Where `CanonicalJson` says how a value is printed, this says what a text means; the two meet in `ReadCanonical`.
 */
module JsonReader {
  import opened Options
  import opened CanonicalJson

  datatype Reading<T> = Refused | Reading(value: T, rest: Text)

  function Code(c: char): Unit
    requires c <= '~'
  {
    (c as int) as Unit
  }

  predicate Starts(t: Text, p: Text) { |p| <= |t| && t[..|p|] == p }

  const NULL: Text := [Code('n'), Code('u'), Code('l'), Code('l')]
  const TRUE: Text := [Code('t'), Code('r'), Code('u'), Code('e')]
  const FALSE: Text := [Code('f'), Code('a'), Code('l'), Code('s'), Code('e')]

  // ---- Strings ----

  function HexValue(u: Unit): (r: Option<int>)
    ensures r.Some? ==> 0 <= r.value < 16
  {
    if Code('0') <= u <= Code('9') then Some((u - Code('0')) as int)
    else if Code('a') <= u <= Code('f') then Some((u - Code('a')) as int + 10)
    else if Code('A') <= u <= Code('F') then Some((u - Code('A')) as int + 10)
    else None
  }

  function HexPair(u: Unit, v: Unit): (r: Option<int>)
    ensures r.Some? ==> 0 <= r.value < 0x100
  {
    var a, b := HexValue(u), HexValue(v);
    if a.Some? && b.Some? then Some(a.value * 16 + b.value) else None
  }

  /** The number four hexadecimal digits stand for. */
  function HexNumber(t: Text): (r: Option<int>)
    requires |t| == 4
    ensures r.Some? ==> 0 <= r.value < 0x1_0000
  {
    var hi, lo := HexPair(t[0], t[1]), HexPair(t[2], t[3]);
    if hi.Some? && lo.Some? then Some(hi.value * 0x100 + lo.value) else None
  }

  /** What a backslash and one character stand for. */
  function ShortEscape(u: Unit): Option<Unit> {
    if u == Code('"') || u == Code('\\') || u == Code('/') then Some(u)
    else if u == Code('b') then Some(0x08)
    else if u == Code('f') then Some(0x0C)
    else if u == Code('n') then Some(0x0A)
    else if u == Code('r') then Some(0x0D)
    else if u == Code('t') then Some(0x09)
    else None
  }

  /** The first character of a string body, escapes resolved. */
  function ReadUnit(t: Text): (r: Reading<Unit>)
    ensures r.Reading? ==> |r.rest| < |t|
  {
    if t == [] || t[0] < 0x20 then Refused
    else if t[0] != Code('\\') then Reading(t[0], t[1..])
    else if |t| >= 6 && t[1] == Code('u') then
      (match HexNumber(t[2..6]) case None => Refused case Some(n) => Reading(n as Unit, t[6..]))
    else if |t| >= 2 then
      (match ShortEscape(t[1]) case None => Refused case Some(u) => Reading(u, t[2..]))
    else Refused
  }

  /** The rest of a string after its opening quote. */
  function ReadString(t: Text): (r: Reading<Text>)
    ensures r.Reading? ==> |r.rest| < |t|
    decreases |t|
  {
    if t == [] then Refused
    else if t[0] == Code('"') then Reading([], t[1..])
    else
      match ReadUnit(t)
      case Refused => Refused
      case Reading(u, more) =>
        match ReadString(more)
        case Refused => Refused
        case Reading(s, rest) => Reading([u] + s, rest)
  }

  // ---- Values ----

  function NumberPrefix(t: Text): (n: nat)
    ensures n <= |t|
  {
    if t == [] || !NumberUnit(t[0]) then 0 else 1 + NumberPrefix(t[1..])
  }

  function ReadNumber(t: Text): (r: Reading<Json>)
    ensures r.Reading? ==> |r.rest| < |t|
  {
    var n := NumberPrefix(t);
    if n == 0 then Refused else Reading(Num(t[..n]), t[n..])
  }

  function ReadWord(t: Text, w: Text, j: Json): (r: Reading<Json>)
    requires w != []
    ensures r.Reading? ==> |r.rest| < |t|
  {
    if Starts(t, w) then Reading(j, t[|w|..]) else Refused
  }

  function ReadText(t: Text): (r: Reading<Json>)
    ensures r.Reading? ==> |r.rest| < |t|
  {
    match ReadString(t) case Refused => Refused case Reading(s, rest) => Reading(Str(s), rest)
  }

  function ReadValue(t: Text): (r: Reading<Json>)
    ensures r.Reading? ==> |r.rest| < |t|
    decreases |t|, 1
  {
    if t == [] then Refused
    else if t[0] == Code('n') then ReadWord(t, NULL, Null)
    else if t[0] == Code('t') then ReadWord(t, TRUE, Bool(true))
    else if t[0] == Code('f') then ReadWord(t, FALSE, Bool(false))
    else if t[0] == Code('"') then ReadText(t[1..])
    else if t[0] == Code('[') then ReadArray(t[1..])
    else if t[0] == Code('{') then ReadObject(t[1..])
    else ReadNumber(t)
  }

  /** An array after its opening bracket. */
  function ReadArray(t: Text): (r: Reading<Json>)
    ensures r.Reading? ==> |r.rest| < |t|
    decreases |t|, 3
  {
    if t != [] && t[0] == Code(']') then Reading(Arr([]), t[1..])
    else (match ReadItems(t) case Refused => Refused case Reading(v, rest) => Reading(Arr(v), rest))
  }

  /** An object after its opening brace. */
  function ReadObject(t: Text): (r: Reading<Json>)
    ensures r.Reading? ==> |r.rest| < |t|
    decreases |t|, 4
  {
    if t != [] && t[0] == Code('}') then Reading(Obj([]), t[1..])
    else (match ReadMembers(t) case Refused => Refused case Reading(v, rest) => Reading(Obj(v), rest))
  }

  /** One or more values up to the closing bracket. */
  function ReadItems(t: Text): (r: Reading<seq<Json>>)
    ensures r.Reading? ==> |r.rest| < |t|
    decreases |t|, 2
  {
    match ReadValue(t)
    case Refused => Refused
    case Reading(v, more) =>
      if more != [] && more[0] == Code(']') then Reading([v], more[1..])
      else if more != [] && more[0] == Code(',') then
        (match ReadItems(more[1..]) case Refused => Refused case Reading(vs, rest) => Reading([v] + vs, rest))
      else Refused
  }

  function ReadMember(t: Text): (r: Reading<Member>)
    ensures r.Reading? ==> |r.rest| < |t|
    decreases |t|, 2
  {
    if t == [] || t[0] != Code('"') then Refused
    else
      match ReadString(t[1..])
      case Refused => Refused
      case Reading(k, more) =>
        if more == [] || more[0] != Code(':') then Refused
        else (match ReadValue(more[1..]) case Refused => Refused case Reading(v, rest) => Reading(Member(k, v), rest))
  }

  /** One or more members up to the closing brace. */
  function ReadMembers(t: Text): (r: Reading<seq<Member>>)
    ensures r.Reading? ==> |r.rest| < |t|
    decreases |t|, 3
  {
    match ReadMember(t)
    case Refused => Refused
    case Reading(m, more) =>
      if more != [] && more[0] == Code('}') then Reading([m], more[1..])
      else if more != [] && more[0] == Code(',') then
        (match ReadMembers(more[1..]) case Refused => Refused case Reading(ms, rest) => Reading([m] + ms, rest))
      else Refused
  }

  // ---- Reading an escaped string ----

  lemma HexDigitRead(d: int)
    requires 0 <= d < 16
    ensures HexValue(HexDigit(d)) == Some(d)
  {
  }

  lemma Digits16(n: int)
    requires 0 <= n < 0x1_0000
    ensures 0 <= n / 16 / 16 / 16 < 16
    ensures n == (n / 16 / 16 / 16 * 16 + n / 16 / 16 % 16) * 0x100 + (n / 16 % 16 * 16 + n % 16)
  {
  }

  lemma HexRead(u: Unit)
    ensures HexNumber(Hex4(u)) == Some(u as int)
  {
    var n := u as int;
    Digits16(n);
    HexDigitRead(n / 16 / 16 / 16);
    HexDigitRead(n / 16 / 16 % 16);
    HexDigitRead(n / 16 % 16);
    HexDigitRead(n % 16);
  }

  lemma EscapeRead(u: Unit, x: Text)
    ensures ReadUnit(EscapeUnit(u) + x) == Reading(u, x) && (EscapeUnit(u) + x)[0] != Code('"')
  {
    var t := EscapeUnit(u) + x;
    if |EscapeUnit(u)| == 6 {
      HexRead(u);
      assert t[2..6] == Hex4(u) && t[6..] == x;
    } else if |EscapeUnit(u)| == 2 {
      assert t[2..] == x;
    } else {
      assert t[1..] == x;
    }
  }

  lemma ChunkRead(u: Unit, paired: bool, x: Text)
    requires paired ==> High(u) || Low(u)
    ensures ReadUnit(Chunk(u, paired) + x) == Reading(u, x) && (Chunk(u, paired) + x)[0] != Code('"')
  {
    if paired {
      assert ([u] + x)[1..] == x;
    } else {
      EscapeRead(u, x);
    }
  }

  lemma {:induction false} StringRead(p: Option<Unit>, s: Text, x: Text)
    ensures ReadString(Escape(p, s) + ([QUOTE] + x)) == Reading(s, x)
    decreases |s|
  {
    if s == [] {
      assert Escape(p, s) + ([QUOTE] + x) == [QUOTE] + x && ([QUOTE] + x)[1..] == x;
    } else {
      var e := Escape(Some(s[0]), s[1..]);
      Regroup(Chunk(s[0], Paired(p, s)), e, [QUOTE] + x);
      ChunkRead(s[0], Paired(p, s), e + ([QUOTE] + x));
      StringRead(Some(s[0]), s[1..], x);
      assert [s[0]] + s[1..] == s;
    }
  }

  /** A quoted string reads back as the string. */
  lemma QuoteRead(s: Text, x: Text)
    ensures (Quote(s) + x)[0] == Code('"') && ReadString((Quote(s) + x)[1..]) == Reading(s, x)
  {
    QuoteUnfolds(s, x);
    StringRead(None, s, x);
    assert ([QUOTE] + (Escape(None, s) + ([QUOTE] + x)))[1..] == Escape(None, s) + ([QUOTE] + x);
  }

  /** A character that stands for itself: no control character, quote, backslash or half of a surrogate pair. */
  predicate Unescaped(u: Unit) {
    u >= 0x20 && u != Code('"') && u != Code('\\') && u as int / 0x400 != 54 && u as int / 0x400 != 55
  }

  /** Each character is printed in the shortest way, its hexadecimal digits in lower case: as itself where that is
      allowed, else as a backslash and one character where there is one, else by its number. */
  lemma EscapeShortest(u: Unit)
    ensures |EscapeUnit(u)| == 1 <==> Unescaped(u)
    ensures |EscapeUnit(u)| == 2 <==> !Unescaped(u) && exists c :: ShortEscape(c) == Some(u)
    ensures forall i :: 2 <= i < |EscapeUnit(u)| ==> !(Code('A') <= EscapeUnit(u)[i] <= Code('F'))
  {
    if |EscapeUnit(u)| == 2 { assert ShortEscape(EscapeUnit(u)[1]) == Some(u); }
  }

  /** Numbers are printed with digits, signs, a point and an exponent. */
  lemma NumberUnits(u: Unit)
    ensures NumberUnit(u) <==> exists i :: 0 <= i < 14 && "0123456789-+.e"[i] as int == u as int
  {
    var s := "0123456789-+.e";
    assert Digit(u) ==> s[u as int - 48] as int == u as int;
    assert s[10] as int == 45 && s[11] as int == 43 && s[12] as int == 46 && s[13] as int == 101;
  }

  /** Half of a pair without the other half is printed by its number. */
  lemma LoneEscaped(u: Unit, s: Text, p: Option<Unit>)
    requires u as int / 0x400 == 54 || u as int / 0x400 == 55
    requires u as int / 0x400 == 54 ==> s == [] || s[0] as int / 0x400 != 55
    requires u as int / 0x400 == 55 ==> p.None? || p.value as int / 0x400 != 54
    ensures Escape(p, [u] + s) == [Code('\\'), Code('u')] + Hex4(u) + Escape(Some(u), s)
  {
    var t := [u] + s;
    assert t[1..] == s && (s != [] ==> t[1] == s[0]);
    assert !Paired(p, t);
  }

  /** A surrogate pair is printed as itself. */
  lemma PairPrinted(h: Unit, l: Unit, s: Text, p: Option<Unit>)
    requires h as int / 0x400 == 54 && l as int / 0x400 == 55
    ensures Escape(p, [h, l] + s) == [h, l] + Escape(Some(l), s)
  {
    var t := [h, l] + s;
    assert t[1..] == [l] + s && t[1..][1..] == s;
  }

  // ---- Reading a value back ----

  /** The keys of every object ascend by code units. */
  ghost predicate KeysAscend(j: Json) {
    match j
    case Arr(v) => forall i :: 0 <= i < |v| ==> KeysAscend(v[i])
    case Obj(ms) =>
      && (forall i, k :: 0 <= i < k < |ms| ==> Precedes(ms[i].key, ms[k].key))
      && (forall i :: 0 <= i < |ms| ==> KeysAscend(ms[i].value))
    case _ => true
  }

  /** The value a text means: j up to member order, an overflowed number read as null, keys ascending. */
  ghost predicate Means(j: Json, r: Json) { Equivalent(j, r) && KeysAscend(r) }

  lemma {:induction false} NumberRead(s: Text, x: Text)
    requires (forall i :: 0 <= i < |s| ==> NumberUnit(s[i])) && Delimited(x)
    ensures NumberPrefix(s + x) == |s|
  {
    if s == [] {
      assert s + x == x;
    } else {
      assert (s + x)[1..] == s[1..] + x;
      NumberRead(s[1..], x);
    }
  }

  lemma NumberValue(s: Text, x: Text)
    requires NumberText(s) && Delimited(x)
    ensures ReadValue(s + x) == Reading(Num(s), x)
  {
    NumberRead(s, x);
    assert (s + x)[0] == s[0] && (s + x)[..|s|] == s && (s + x)[|s|..] == x;
  }

  lemma WordRead(w: Text, j: Json, x: Text)
    requires w != []
    ensures ReadWord(w + x, w, j) == Reading(j, x) && (w + x)[0] == w[0]
  {
  }

  lemma QuoteValue(s: Text, x: Text)
    ensures ReadValue(Quote(s) + x) == Reading(Str(s), x)
  {
    QuoteRead(s, x);
  }

  lemma LeafRead(j: Json, x: Text)
    requires WellFormed(j) && Delimited(x) && !j.Arr? && !j.Obj?
    ensures ReadValue(Canon(j) + x) == Reading(if j.Overflow? then Null else j, x)
  {
    match j {
      case Num(s) => NumberValue(s, x);
      case Str(s) => QuoteValue(s, x);
      case Bool(b) => WordRead(if b then TRUE else FALSE, j, x);
      case _ => WordRead(NULL, Null, x);
    }
  }

  lemma {:induction false} ItemsRead(v: seq<Json>, x: Text) returns (rs: seq<Json>)
    requires v != [] && forall i :: 0 <= i < |v| ==> WellFormed(v[i])
    ensures ReadItems(CanonItems(v) + ([93] + x)) == Reading(rs, x)
    ensures |rs| == |v| && forall i :: 0 <= i < |v| ==> Means(v[i], rs[i])
    decreases v, 0
  {
    var more := Rest(v) + ([93] + x);
    ItemsHead(v, x);
    RestHead(v, x);
    var r := ReadCanonical(v[0], more);
    rs := [r];
    if |v| > 1 {
      var tail := ItemsRead(v[1..], x);
      rs := [r] + tail;
      assert forall i :: 0 < i < |v| ==> v[i] == v[1..][i - 1] && rs[i] == tail[i - 1];
    }
  }

  /** A member of the object has this key, and a value this one means. */
  ghost predicate MemberRead(ms: seq<Member>, n: Member) {
    exists k :: 0 <= k < |ms| && ms[k].key == n.key && Means(ms[k].value, n.value)
  }

  lemma {:induction false} PairRead(a: Json, p: Pair, x: Text) returns (n: Member)
    requires a.Obj? && WellFormed(a) && PairOf(p, a.members) && Delimited(x)
    ensures ReadMember(Quote(p.key) + ([COLON] + (p.text + x))) == Reading(n, x)
    ensures n.key == p.key && MemberRead(a.members, n)
    decreases a, 0
  {
    var k :| 0 <= k < |a.members| && p == Pair(a.members[k].key, Canon(a.members[k].value));
    var colon := [COLON] + (p.text + x);
    QuoteRead(p.key, colon);
    assert colon[1..] == p.text + x;
    var r := ReadCanonical(a.members[k].value, x);
    n := Member(p.key, r);
  }

  lemma FirstMember(t: Text, n: Member, more: Text, tail: seq<Member>, x: Text)
    requires ReadMember(t) == Reading(n, more) && more != []
    requires || (more[0] == Code('}') && tail == [] && more[1..] == x)
             || (more[0] == Code(',') && ReadMembers(more[1..]) == Reading(tail, x))
    ensures ReadMembers(t) == Reading([n] + tail, x)
  {
    if more[0] == Code('}') { assert [n] + tail == [n]; }
  }

  /** The members read are those of the pairs, in order. */
  ghost predicate PairsMean(ms: seq<Member>, ps: seq<Pair>, ns: seq<Member>) {
    |ns| == |ps| && forall i :: 0 <= i < |ps| ==> ns[i].key == ps[i].key && MemberRead(ms, ns[i])
  }

  lemma PairsMeanMore(ms: seq<Member>, ps: seq<Pair>, n: Member, tail: seq<Member>)
    requires ps != [] && n.key == ps[0].key && MemberRead(ms, n) && PairsMean(ms, ps[1..], tail)
    ensures PairsMean(ms, ps, [n] + tail)
  {
    var ns := [n] + tail;
    forall i | 0 < i < |ps| ensures ns[i].key == ps[i].key && MemberRead(ms, ns[i]) {
      assert ps[i] == ps[1..][i - 1] && ns[i] == tail[i - 1];
    }
  }

  lemma {:induction false} PairsRead(a: Json, ps: seq<Pair>, x: Text) returns (ns: seq<Member>)
    requires a.Obj? && WellFormed(a) && ps != [] && PairsOf(ps, a.members)
    ensures ReadMembers(JoinPairs(ps) + ([125] + x)) == Reading(ns, x) && PairsMean(a.members, ps, ns)
    decreases a, |ps|
  {
    var t, more := JoinPairs(ps) + ([125] + x), RestPairs(ps) + ([125] + x);
    JoinHead(ps, x);
    RestPairsHead(ps, x);
    var n := PairRead(a, ps[0], more);
    var tail: seq<Member> := [];
    if |ps| > 1 {
      TailPairsOf(ps, a.members);
      tail := PairsRead(a, ps[1..], x);
    }
    FirstMember(t, n, more, tail, x);
    PairsMeanMore(a.members, ps, n, tail);
    ns := [n] + tail;
  }

  ghost predicate HasKey(ps: seq<Pair>, key: Text) { exists j :: 0 <= j < |ps| && ps[j].key == key }

  /** Reading every member once, under distinct keys, reads the object. */
  lemma MembersMean(ms: seq<Member>, ps: seq<Pair>, ns: seq<Member>)
    requires (forall i, k :: 0 <= i < k < |ms| ==> ms[i].key != ms[k].key) && |ns| == |ps| == |ms|
    requires forall i :: 0 <= i < |ms| ==> HasKey(ps, ms[i].key)
    requires forall i, k :: 0 <= i < k < |ps| ==> Precedes(ps[i].key, ps[k].key)
    requires PairsMean(ms, ps, ns)
    ensures Means(Obj(ms), Obj(ns))
  {
    forall i | 0 <= i < |ms| ensures HasTwin(ms[i], ns) {
      assert HasKey(ps, ms[i].key);
      var j :| 0 <= j < |ps| && ps[j].key == ms[i].key;
      ReadTwin(ms, ns, i, j);
    }
    forall i | 0 <= i < |ns| ensures KeysAscend(ns[i].value) { assert MemberRead(ms, ns[i]); }
  }

  lemma ReadTwin(ms: seq<Member>, ns: seq<Member>, i: nat, j: nat)
    requires (forall i, k :: 0 <= i < k < |ms| ==> ms[i].key != ms[k].key) && i < |ms| && j < |ns|
    requires ns[j].key == ms[i].key && MemberRead(ms, ns[j])
    ensures HasTwin(ms[i], ns)
  {
    var k :| 0 <= k < |ms| && ms[k].key == ns[j].key && Means(ms[k].value, ns[j].value);
    assert k == i;
  }

  lemma SortedMembers(ms: seq<Member>, ps: seq<Pair>)
    requires WellFormed(Obj(ms)) && ps == SortPairs(Pairs(ms))
    ensures PairsOf(ps, ms) && |ps| == |ms|
    ensures forall i :: 0 <= i < |ms| ==> HasKey(ps, ms[i].key)
    ensures forall i, k :: 0 <= i < k < |ps| ==> Precedes(ps[i].key, ps[k].key)
  {
    SortedPairsOf(ms);
    PairsDistinct(ms);
    SortIsSorted(Pairs(ms));
    forall i | 0 <= i < |ms| ensures HasKey(ps, ms[i].key) {
      var j :| 0 <= j < |ps| && ps[j] == Pair(ms[i].key, Canon(ms[i].value));
    }
  }

  lemma ObjectFrom(t: Text, ns: seq<Member>, x: Text)
    requires t != [] && if t[0] == Code('}') then ns == [] && t[1..] == x else ReadMembers(t) == Reading(ns, x)
    ensures ReadObject(t) == Reading(Obj(ns), x)
  {
  }

  lemma {:induction false} ObjectRead(a: Json, ps: seq<Pair>, x: Text) returns (r: Json)
    requires a.Obj? && WellFormed(a) && ps == SortPairs(Pairs(a.members))
    ensures ReadObject(JoinPairs(ps) + ([125] + x)) == Reading(r, x) && Means(a, r)
    decreases a, |a.members| + 1, 1
  {
    SortedMembers(a.members, ps);
    var ns := MembersRead(a, ps, x);
    MembersMean(a.members, ps, ns);
    r := Obj(ns);
  }

  lemma {:induction false} MembersRead(a: Json, ps: seq<Pair>, x: Text) returns (ns: seq<Member>)
    requires a.Obj? && WellFormed(a) && PairsOf(ps, a.members) && |ps| == |a.members|
    ensures ReadObject(JoinPairs(ps) + ([125] + x)) == Reading(Obj(ns), x) && PairsMean(a.members, ps, ns)
    decreases a, |ps| + 1, 0
  {
    JoinHead(ps, x);
    ns := [];
    if ps != [] { ns := PairsRead(a, ps, x); }
    ObjectFrom(JoinPairs(ps) + ([125] + x), ns, x);
  }

  lemma {:induction false} ArrayRead(v: seq<Json>, x: Text) returns (r: Json)
    requires forall i :: 0 <= i < |v| ==> WellFormed(v[i])
    ensures ReadArray(CanonItems(v) + ([93] + x)) == Reading(r, x) && Means(Arr(v), r)
    decreases v, 1
  {
    ItemsHead(v, x);
    var rs: seq<Json> := [];
    if v != [] { rs := ItemsRead(v, x); }
    r := Arr(rs);
  }

  lemma OpenValue(body: Text)
    ensures ReadValue([91] + body) == ReadArray(body) && ReadValue([123] + body) == ReadObject(body)
  {
    assert ([91] + body)[1..] == body && ([123] + body)[1..] == body;
  }

  /** The canonical text of a value, whatever follows it, reads back as that value: up to member order, with an
      overflowed number read as null, and with the keys of every object ascending by code units. */
  lemma {:induction false} ReadCanonical(j: Json, x: Text) returns (r: Json)
    requires WellFormed(j) && Delimited(x)
    ensures ReadValue(Canon(j) + x) == Reading(r, x) && Means(j, r)
    decreases j, if j.Obj? then |j.members| + 2 else 2
  {
    match j {
      case Arr(v) =>
        r := ArrayRead(v, x);
        Bracketed(91, CanonItems(v), 93, x);
        OpenValue(CanonItems(v) + ([93] + x));
      case Obj(ms) =>
        var ps := SortPairs(Pairs(ms));
        r := ObjectRead(j, ps, x);
        Bracketed(123, JoinPairs(ps), 125, x);
        OpenValue(JoinPairs(ps) + ([125] + x));
      case _ =>
        LeafRead(j, x);
        r := if j.Overflow? then Null else j;
    }
  }
}
