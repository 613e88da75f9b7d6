/** The chained record hashes of bin/verify-list-owner-replay-equivalence.js and the comparison of two chains.

    `hash` stands for SHA-256: nothing is assumed of it but that digests have 32 units. A text
    stands for its own UTF-8 bytes.
 */
module HashChain {
  import opened Options
  import opened CanonicalJson

  type Hash = Text -> Text

  ghost predicate Digests(hash: Hash) {
    forall t :: |hash(t)| == 32
  }

  const ZERO: Text := seq(32, _ => 0)

  // "block_index"
  const BLOCK_INDEX: Text := [98, 108, 111, 99, 107, 95, 105, 110, 100, 101, 120]

  const MAX_SAFE := 9007199254740991

  function MemberOf(ms: seq<Member>, key: Text): Option<Json> {
    if ms == [] then None else if ms[0].key == key then Some(ms[0].value) else MemberOf(ms[1..], key)
  }

  function DigitsValue(t: Text): nat
    requires forall i :: 0 <= i < |t| ==> Digit(t[i])
  {
    if t == [] then 0 else assert Digit(t[|t| - 1]); DigitsValue(t[..|t| - 1]) * 10 + (t[|t| - 1] as int - 48)
  }

  /** A nonnegative safe integer, or nothing. */
  function SafeIndex(j: Json): Option<nat> {
    if j.Num? && j.text != [] && (forall i :: 0 <= i < |j.text| ==> Digit(j.text[i])) && DigitsValue(j.text) <= MAX_SAFE
    then Some(DigitsValue(j.text)) else None
  }

  /** A record's block index; None is a record the chain refuses. */
  function BlockIndex(record: Json): Option<nat> {
    if !record.Obj? then None
    else
      match MemberOf(record.members, BLOCK_INDEX)
      case None => None
      case Some(v) => SafeIndex(v)
  }

  datatype Entry = Entry(block: nat, fields: map<string, Text>)

  datatype Result<+T> = Ok(value: T) | Refused(position: nat)

  /** What the chain takes from a record: its block and its canonical text. */
  datatype Link = Link(block: nat, text: Text)

  function LinkOf(record: Json): Option<Link> {
    match BlockIndex(record)
    case None => None
    case Some(block) => Some(Link(block, Canon(record)))
  }

  /** The text hashed for a record. */
  function Preimage(previous: Text, text: Text): Text {
    previous + [10] + text
  }

  /** The digest after all of the links. */
  function Digest(hash: Hash, links: seq<Link>): Text {
    if links == [] then ZERO
    else hash(Preimage(Digest(hash, links[..|links| - 1]), links[|links| - 1].text))
  }

  ghost predicate ChainOf(chain: seq<Entry>, hash: Hash, links: seq<Link>) {
    && |chain| == |links|
    && forall i :: 0 <= i < |links| ==> chain[i] == Entry(links[i].block, map["hash" := Digest(hash, links[..i + 1])])
  }

  ghost predicate Linked(links: seq<Link>, records: seq<Json>) {
    |links| == |records| && forall i :: 0 <= i < |records| ==> LinkOf(records[i]) == Some(links[i])
  }

  /** The chaining loop, for any way of reading a record. */
  method Chain<R>(hash: Hash, link: R -> Option<Link>, records: seq<R>)
    returns (r: Result<seq<Entry>>, ghost links: seq<Link>)
    ensures r.Ok? <==> forall i :: 0 <= i < |records| ==> link(records[i]).Some?
    ensures r.Ok? ==> |links| == |records| && forall i :: 0 <= i < |records| ==> link(records[i]) == Some(links[i])
    ensures r.Ok? ==> ChainOf(r.value, hash, links)
    ensures r.Refused? ==> r.position < |records| && link(records[r.position]).None? &&
                           forall i :: 0 <= i < r.position ==> link(records[i]).Some?
  {
    var previous := ZERO;
    var chain: seq<Entry> := [];
    links := [];
    for i := 0 to |records|
      invariant |links| == i && previous == Digest(hash, links) && ChainOf(chain, hash, links)
      invariant forall k :: 0 <= k < i ==> link(records[k]) == Some(links[k])
    {
      var next := link(records[i]);
      if next.None? { return Refused(i), links; }
      previous := hash(Preimage(previous, next.value.text));
      Extend(hash, chain, links, next.value, previous);
      links := links + [next.value];
      chain := chain + [Entry(next.value.block, map["hash" := previous])];
    }
    return Ok(chain), links;
  }

  method BuildHashChain(hash: Hash, records: seq<Json>) returns (r: Result<seq<Entry>>, ghost links: seq<Link>)
    ensures r.Ok? <==> forall i :: 0 <= i < |records| ==> LinkOf(records[i]).Some?
    ensures r.Ok? ==> Linked(links, records) && ChainOf(r.value, hash, links)
    ensures r.Refused? ==> r.position < |records| && LinkOf(records[r.position]).None? &&
                           forall i :: 0 <= i < r.position ==> LinkOf(records[i]).Some?
  {
    r, links := Chain(hash, LinkOf, records);
  }

  lemma Extend(hash: Hash, chain: seq<Entry>, links: seq<Link>, link: Link, next: Text)
    requires ChainOf(chain, hash, links) && next == hash(Preimage(Digest(hash, links), link.text))
    ensures Digest(hash, links + [link]) == next
    ensures ChainOf(chain + [Entry(link.block, map["hash" := next])], hash, links + [link])
  {
    var more := links + [link];
    assert more[..|more| - 1] == links;
    forall i | 0 <= i < |more|
      ensures (chain + [Entry(link.block, map["hash" := next])])[i] == Entry(more[i].block, map["hash" := Digest(hash, more[..i + 1])])
    {
      if i < |links| {
        assert more[..i + 1] == links[..i + 1];
      } else {
        assert more[..i + 1] == more;
      }
    }
  }

  // ---- Comparing two chains ----

  datatype Divergence =
    | Agree
    | Sequence(block: nat, legacyBlock: nat, offBlock: nat)
    | Field(block: nat, field: string, legacyValue: Text, offValue: Text)
    | Length(legacyLength: nat, offLength: nat)

  function At(e: Entry, field: string): Text {
    if field in e.fields then e.fields[field] else []
  }

  /** The entries agree on the block and on every compared field. */
  ghost predicate SameEntry(a: Entry, b: Entry, fields: seq<string>) {
    a.block == b.block && forall k :: 0 <= k < |fields| ==> At(a, fields[k]) == At(b, fields[k])
  }

  /** i is the first position where the chains differ. */
  ghost predicate FirstDifference(a: seq<Entry>, b: seq<Entry>, fields: seq<string>, i: nat) {
    i < |a| && i < |b| && !SameEntry(a[i], b[i], fields) && forall k :: 0 <= k < i ==> SameEntry(a[k], b[k], fields)
  }

  method FirstDivergence(a: seq<Entry>, b: seq<Entry>, fields: seq<string>) returns (d: Divergence, ghost at: nat)
    ensures d.Agree? ==> |a| == |b| && forall k :: 0 <= k < |a| ==> SameEntry(a[k], b[k], fields)
    ensures d.Sequence? ==> FirstDifference(a, b, fields, at) && a[at].block != b[at].block
    ensures d.Sequence? ==> d == Sequence(a[at].block, a[at].block, b[at].block)
    ensures d.Field? ==> FirstDifference(a, b, fields, at) && a[at].block == b[at].block && d.field in fields &&
                         At(a[at], d.field) != At(b[at], d.field) && d == Field(a[at].block, d.field, At(a[at], d.field), At(b[at], d.field))
    ensures d.Field? ==> exists k :: 0 <= k < |fields| && fields[k] == d.field &&
                                     forall m :: 0 <= m < k ==> At(a[at], fields[m]) == At(b[at], fields[m])
    ensures d.Length? ==> d == Length(|a|, |b|) && |a| != |b| &&
                          forall k :: 0 <= k < |a| && k < |b| ==> SameEntry(a[k], b[k], fields)
  {
    at := 0;
    var n := if |a| < |b| then |a| else |b|;
    for i := 0 to n
      invariant forall k :: 0 <= k < i ==> SameEntry(a[k], b[k], fields)
    {
      if a[i].block != b[i].block {
        return Sequence(a[i].block, a[i].block, b[i].block), i;
      }
      for k := 0 to |fields|
        invariant forall m :: 0 <= m < k ==> At(a[i], fields[m]) == At(b[i], fields[m])
      {
        if At(a[i], fields[k]) != At(b[i], fields[k]) {
          return Field(a[i].block, fields[k], At(a[i], fields[k]), At(b[i], fields[k])), i;
        }
      }
    }
    if |a| != |b| { return Length(|a|, |b|), at; }
    return Agree, at;
  }

  // ---- What the comparison proves ----

  /** Two different texts hashed for the same position, with one digest. */
  ghost predicate CollisionAt(hash: Hash, a: seq<Link>, b: seq<Link>, i: nat) {
    && i < |a| && i < |b|
    && var x, y := Preimage(Digest(hash, a[..i]), a[i].text), Preimage(Digest(hash, b[..i]), b[i].text);
       x != y && hash(x) == hash(y)
  }

  /** The first n canonical texts agree. */
  ghost predicate SameTexts(a: seq<Link>, b: seq<Link>, n: nat) {
    n <= |a| && n <= |b| && forall k :: 0 <= k < n ==> a[k].text == b[k].text
  }

  lemma DigestLength(hash: Hash, a: seq<Link>)
    requires Digests(hash)
    ensures |Digest(hash, a)| == 32
  {
    if a != [] {
      assert |hash(Preimage(Digest(hash, a[..|a| - 1]), a[|a| - 1].text))| == 32;
    }
  }

  lemma PreimagesEqualIff(p: Text, q: Text, x: Text, y: Text)
    requires |p| == |q|
    ensures Preimage(p, x) == Preimage(q, y) <==> p == q && x == y
  {
    if Preimage(p, x) == Preimage(q, y) {
      Regroup(p, [10], x);
      Regroup(q, [10], y);
      Cancel(p, q, [10] + x, [10] + y);
      Cancel([10], [10], x, y);
    }
  }

  /** One more link: the digests agree exactly when the earlier digests and the new texts do. */
  lemma DigestStep(hash: Hash, a: seq<Link>, b: seq<Link>, n: nat)
    requires Digests(hash) && n < |a| && n < |b| && !CollisionAt(hash, a, b, n)
    ensures Digest(hash, a[..n + 1]) == Digest(hash, b[..n + 1]) <==>
            Digest(hash, a[..n]) == Digest(hash, b[..n]) && a[n].text == b[n].text
  {
    assert a[..n + 1][..n] == a[..n] && b[..n + 1][..n] == b[..n];
    DigestLength(hash, a[..n]);
    DigestLength(hash, b[..n]);
    PreimagesEqualIff(Digest(hash, a[..n]), Digest(hash, b[..n]), a[n].text, b[n].text);
  }

  /** Absent collisions, the digests after n links agree exactly when the first n texts do. */
  lemma {:induction false} DigestsAgreeIff(hash: Hash, a: seq<Link>, b: seq<Link>, n: nat)
    requires Digests(hash) && n <= |a| && n <= |b|
    requires forall i :: 0 <= i < n ==> !CollisionAt(hash, a, b, i)
    ensures Digest(hash, a[..n]) == Digest(hash, b[..n]) <==> SameTexts(a, b, n)
  {
    if n == 0 {
    } else {
      DigestsAgreeIff(hash, a, b, n - 1);
      DigestStep(hash, a, b, n - 1);
      assert SameTexts(a, b, n) <==> SameTexts(a, b, n - 1) && a[n - 1].text == b[n - 1].text;
    }
  }

  /** Two entries of the chains agree exactly when their blocks and digests do. */
  lemma EntriesAgreeIff(hash: Hash, a: seq<Link>, b: seq<Link>, ca: seq<Entry>, cb: seq<Entry>, i: nat)
    requires ChainOf(ca, hash, a) && ChainOf(cb, hash, b) && i < |a| && i < |b|
    ensures SameEntry(ca[i], cb[i], ["hash"]) <==>
            a[i].block == b[i].block && Digest(hash, a[..i + 1]) == Digest(hash, b[..i + 1])
  {
    var fields := ["hash"];
    assert fields[0] == "hash" && forall k :: 0 <= k < |fields| ==> fields[k] == "hash";
    assert SameEntry(ca[i], cb[i], fields) ==> At(ca[i], fields[0]) == At(cb[i], fields[0]);
  }

  /** One text carries one block, as canonical texts of records do. */
  ghost predicate TextsFixBlocks(a: seq<Link>, b: seq<Link>) {
    forall i :: 0 <= i < |a| && i < |b| && a[i].text == b[i].text ==> a[i].block == b[i].block
  }

  lemma FirstDifferenceIsText(hash: Hash, a: seq<Link>, b: seq<Link>, ca: seq<Entry>, cb: seq<Entry>, at: nat)
    requires Digests(hash) && ChainOf(ca, hash, a) && ChainOf(cb, hash, b) && TextsFixBlocks(a, b)
    requires forall i :: 0 <= i < |a| ==> !CollisionAt(hash, a, b, i)
    requires FirstDifference(ca, cb, ["hash"], at)
    ensures SameTexts(a, b, at) && a[at].text != b[at].text
  {
    DigestsAgreeIff(hash, a, b, at);
    if at > 0 {
      assert SameEntry(ca[at - 1], cb[at - 1], ["hash"]);
      EntriesAgreeIff(hash, a, b, ca, cb, at - 1);
    }
    EntriesAgreeIff(hash, a, b, ca, cb, at);
    DigestStep(hash, a, b, at);
  }

  lemma AgreementIsSameTexts(hash: Hash, a: seq<Link>, b: seq<Link>, ca: seq<Entry>, cb: seq<Entry>)
    requires Digests(hash) && ChainOf(ca, hash, a) && ChainOf(cb, hash, b) && |a| == |b|
    requires forall i :: 0 <= i < |a| ==> !CollisionAt(hash, a, b, i)
    requires forall k :: 0 <= k < |a| ==> SameEntry(ca[k], cb[k], ["hash"])
    ensures SameTexts(a, b, |a|)
  {
    if a != [] {
      assert SameEntry(ca[|a| - 1], cb[|a| - 1], ["hash"]);
      EntriesAgreeIff(hash, a, b, ca, cb, |a| - 1);
      DigestsAgreeIff(hash, a, b, |a|);
    }
  }

  lemma LaterDigestsDiffer(hash: Hash, a: seq<Link>, b: seq<Link>, at: nat)
    requires Digests(hash) && at < |a| && at < |b| && a[at].text != b[at].text
    requires forall i :: 0 <= i < |a| ==> !CollisionAt(hash, a, b, i)
    ensures forall n :: at < n <= |a| && n <= |b| ==> Digest(hash, a[..n]) != Digest(hash, b[..n])
  {
    forall n | at < n <= |a| && n <= |b| ensures Digest(hash, a[..n]) != Digest(hash, b[..n]) {
      DigestsAgreeIff(hash, a, b, n);
    }
  }

  lemma {:induction false} MemberByKey(ms: seq<Member>, i: nat)
    requires i < |ms| && forall i, k :: 0 <= i < k < |ms| ==> ms[i].key != ms[k].key
    ensures MemberOf(ms, ms[i].key) == Some(ms[i].value)
  {
    if i == 0 {
    } else {
      MemberByKey(ms[1..], i - 1);
    }
  }

  lemma {:induction false} MemberFound(ms: seq<Member>, key: Text) returns (i: nat)
    ensures MemberOf(ms, key).Some? ==> i < |ms| && ms[i].key == key && MemberOf(ms, key) == Some(ms[i].value)
  {
    i := 0;
    if ms != [] && ms[0].key != key {
      i := MemberFound(ms[1..], key);
      i := i + 1;
    }
  }

  /** Equivalent records carry the same block index. */
  lemma SameBlock(x: Json, y: Json)
    requires WellFormed(x) && WellFormed(y) && Equivalent(x, y) && BlockIndex(x).Some?
    ensures BlockIndex(x) == BlockIndex(y)
  {
    var i := MemberFound(x.members, BLOCK_INDEX);
    assert HasTwin(x.members[i], y.members);
    var k :| 0 <= k < |y.members| && y.members[k].key == x.members[i].key && Equivalent(x.members[i].value, y.members[k].value);
    MemberByKey(y.members, k);
  }

  /** Two records give the same text exactly when they are equivalent, and then the same block. */
  lemma TextsEqualIff(x: Json, y: Json)
    requires WellFormed(x) && WellFormed(y) && LinkOf(x).Some? && LinkOf(y).Some?
    ensures LinkOf(x).value.text == LinkOf(y).value.text <==> Equivalent(x, y)
    ensures Equivalent(x, y) ==> LinkOf(x) == LinkOf(y)
  {
    CanonicalIff(x, y);
    if Equivalent(x, y) { SameBlock(x, y); }
  }

  ghost predicate Records(rs: seq<Json>) {
    forall i :: 0 <= i < |rs| ==> WellFormed(rs[i])
  }

  /** The first n records agree up to member order. */
  ghost predicate SameRecords(a: seq<Json>, b: seq<Json>, n: nat) {
    n <= |a| && n <= |b| && forall k :: 0 <= k < n ==> Equivalent(a[k], b[k])
  }

  lemma TextsAreRecords(a: seq<Json>, b: seq<Json>, la: seq<Link>, lb: seq<Link>)
    requires Records(a) && Records(b) && Linked(la, a) && Linked(lb, b)
    ensures TextsFixBlocks(la, lb)
    ensures forall i :: 0 <= i < |a| && i < |b| ==> (la[i].text == lb[i].text <==> Equivalent(a[i], b[i]))
  {
    forall i | 0 <= i < |a| && i < |b|
      ensures la[i].text == lb[i].text <==> Equivalent(a[i], b[i])
      ensures la[i].text == lb[i].text ==> la[i].block == lb[i].block
    {
      assert LinkOf(a[i]) == Some(la[i]) && LinkOf(b[i]) == Some(lb[i]);
      TextsEqualIff(a[i], b[i]);
    }
  }

  /** Absent a collision, two chains first differ at the first record that is not equivalent to its counterpart,
      and every digest from there on differs too. */
  lemma DivergenceIsFirstRecord(hash: Hash, a: seq<Json>, b: seq<Json>, la: seq<Link>, lb: seq<Link>,
                                ca: seq<Entry>, cb: seq<Entry>, at: nat)
    requires Digests(hash) && Records(a) && Records(b) && Linked(la, a) && Linked(lb, b)
    requires ChainOf(ca, hash, la) && ChainOf(cb, hash, lb)
    requires forall i :: 0 <= i < |la| ==> !CollisionAt(hash, la, lb, i)
    requires FirstDifference(ca, cb, ["hash"], at)
    ensures SameRecords(a, b, at) && !Equivalent(a[at], b[at])
    ensures forall n :: at < n <= |a| && n <= |b| ==> Digest(hash, la[..n]) != Digest(hash, lb[..n])
  {
    TextsAreRecords(a, b, la, lb);
    FirstDifferenceIsText(hash, la, lb, ca, cb, at);
    LaterDigestsDiffer(hash, la, lb, at);
  }

  /** If the comparison finds nothing, either the lists agree record by record or a concrete collision of the hash
      sits at one of the positions. */
  lemma AgreementIsEqualityOrCollision(hash: Hash, a: seq<Json>, b: seq<Json>, la: seq<Link>, lb: seq<Link>,
                                       ca: seq<Entry>, cb: seq<Entry>)
    requires Digests(hash) && Records(a) && Records(b) && Linked(la, a) && Linked(lb, b) && |a| == |b|
    requires ChainOf(ca, hash, la) && ChainOf(cb, hash, lb)
    requires forall k :: 0 <= k < |a| ==> SameEntry(ca[k], cb[k], ["hash"])
    ensures SameRecords(a, b, |a|) || exists i: nat :: CollisionAt(hash, la, lb, i)
  {
    if !exists i: nat :: CollisionAt(hash, la, lb, i) {
      TextsAreRecords(a, b, la, lb);
      AgreementIsSameTexts(hash, la, lb, ca, cb);
    }
  }

  /** Equivalent record lists have the same chain. */
  lemma EquivalentSameChain(hash: Hash, a: seq<Json>, b: seq<Json>, la: seq<Link>, lb: seq<Link>,
                            ca: seq<Entry>, cb: seq<Entry>)
    requires Records(a) && Records(b) && Linked(la, a) && Linked(lb, b) && |a| == |b| && SameRecords(a, b, |a|)
    requires ChainOf(ca, hash, la) && ChainOf(cb, hash, lb)
    ensures ca == cb
  {
    TextsAreRecords(a, b, la, lb);
    assert la == lb;
  }

  datatype Verdict = CorpusRefused | Compared(divergence: Divergence)

  /** The comparison of a plain corpus: refused when a record has no block index or lies at or above the activation
      height, and otherwise silent exactly on equivalent sides, unless SHA-256 collides. */
  method CompareCorpus(hash: Hash, legacy: seq<Json>, off: seq<Json>, activationHeight: nat)
    returns (r: Verdict, ghost la: seq<Link>, ghost lb: seq<Link>)
    requires Digests(hash) && Records(legacy) && Records(off)
    ensures r.Compared? <==> BelowHeight(legacy, activationHeight) && BelowHeight(off, activationHeight)
    ensures r.Compared? ==> Linked(la, legacy) && Linked(lb, off)
    ensures r == Compared(Agree) ==> |legacy| == |off|
    ensures r == Compared(Agree) ==> SameRecords(legacy, off, |off|) || exists i: nat :: CollisionAt(hash, la, lb, i)
    ensures r.Compared? && |legacy| == |off| && SameRecords(legacy, off, |off|) ==> r.divergence.Agree?
  {
    var chainA: Result<seq<Entry>>, chainB: Result<seq<Entry>>;
    chainA, la := BuildHashChain(hash, legacy);
    chainB, lb := BuildHashChain(hash, off);
    if chainA.Refused? || chainB.Refused? { return CorpusRefused, la, lb; }
    var belowA := AllBelow(hash, la, chainA.value, activationHeight);
    var belowB := AllBelow(hash, lb, chainB.value, activationHeight);
    BelowIff(legacy, la, activationHeight);
    BelowIff(off, lb, activationHeight);
    if !belowA || !belowB { return CorpusRefused, la, lb; }
    var d;
    ghost var at;
    d, at := FirstDivergence(chainA.value, chainB.value, ["hash"]);
    if d.Agree? {
      AgreementIsEqualityOrCollision(hash, legacy, off, la, lb, chainA.value, chainB.value);
    } else if |legacy| == |off| && SameRecords(legacy, off, |off|) {
      EquivalentSameChain(hash, legacy, off, la, lb, chainA.value, chainB.value);
    }
    return Compared(d), la, lb;
  }

  /** Every record has a block index, below the height. */
  ghost predicate BelowHeight(records: seq<Json>, height: nat) {
    forall i :: 0 <= i < |records| ==> LinkOf(records[i]).Some? && LinkOf(records[i]).value.block < height
  }

  ghost predicate BlocksBelow(links: seq<Link>, height: nat) {
    forall i :: 0 <= i < |links| ==> links[i].block < height
  }

  lemma BelowIff(records: seq<Json>, links: seq<Link>, height: nat)
    requires Linked(links, records)
    ensures BelowHeight(records, height) <==> BlocksBelow(links, height)
  {
    if BelowHeight(records, height) {
      forall i | 0 <= i < |links| ensures links[i].block < height {
        assert LinkOf(records[i]) == Some(links[i]);
      }
    }
  }

  method AllBelow(ghost hash: Hash, ghost links: seq<Link>, chain: seq<Entry>, height: nat) returns (r: bool)
    requires ChainOf(chain, hash, links)
    ensures r <==> BlocksBelow(links, height)
  {
    for i := 0 to |chain|
      invariant forall k :: 0 <= k < i ==> links[k].block < height
    {
      if chain[i].block >= height { return false; }
    }
    return true;
  }

  // ---- Which records the chain accepts ----

  function Decimal(n: nat): (t: Text)
    ensures t != [] && forall i :: 0 <= i < |t| ==> Digit(t[i])
  {
    var d := (48 + n % 10) as Unit;
    if n < 10 then [d] else Decimal(n / 10) + [d]
  }

  lemma {:induction false} DecimalValue(n: nat)
    ensures DigitsValue(Decimal(n)) == n
  {
    var t := Decimal(n);
    if n < 10 {
      assert t[..0] == [];
    } else {
      DecimalValue(n / 10);
      assert t[..|t| - 1] == Decimal(n / 10);
    }
  }

  function PowerOfTwo(k: nat): nat { if k == 0 then 1 else 2 * PowerOfTwo(k - 1) }

  lemma {:induction false} PowersAdd(a: nat, b: nat)
    ensures PowerOfTwo(a + b) == PowerOfTwo(a) * PowerOfTwo(b)
  {
    if a == 0 {
    } else {
      PowersAdd(a - 1, b);
    }
  }

  lemma SafeBound()
    ensures MAX_SAFE == PowerOfTwo(53) - 1
  {
    assert PowerOfTwo(4) == 16 && PowerOfTwo(5) == 32;
    PowersAdd(4, 4);
    PowersAdd(8, 8);
    PowersAdd(16, 16);
    PowersAdd(16, 5);
    PowersAdd(32, 21);
  }

  ghost predicate Spells(t: Text, s: string) {
    |t| == |s| && forall i :: 0 <= i < |s| ==> t[i] as int == s[i] as int
  }

  lemma SpelledOnce(a: Text, b: Text, s: string)
    requires Spells(a, s) && Spells(b, s)
    ensures a == b
  {
  }

  lemma {:induction false} MemberAt(ms: seq<Member>, k: nat)
    requires k < |ms| && forall i :: 0 <= i < k ==> ms[i].key != ms[k].key
    ensures MemberOf(ms, ms[k].key) == Some(ms[k].value)
  {
    if k > 0 { MemberAt(ms[1..], k - 1); }
  }

  /** A record whose block_index is a printed natural number is linked exactly when that number is below 2^53, by the
      number and its canonical text. */
  lemma RecordLinked(ms: seq<Member>, k: nat, n: nat)
    requires WellFormed(Obj(ms)) && k < |ms| && Spells(ms[k].key, "block_index") && ms[k].value == Num(Decimal(n))
    ensures LinkOf(Obj(ms)) == if n < PowerOfTwo(53) then Some(Link(n, Canon(Obj(ms)))) else None
  {
    KeySpelled();
    SpelledOnce(ms[k].key, BLOCK_INDEX, "block_index");
    MemberAt(ms, k);
    DecimalValue(n);
    SafeBound();
  }

  lemma KeySpelled()
    ensures Spells(BLOCK_INDEX, "block_index")
  {
  }

  /** And nothing else is linked: the record is an object with such a member, all digits. */
  lemma LinkedRecord(record: Json) returns (k: nat)
    requires LinkOf(record).Some?
    ensures record.Obj? && k < |record.members| && Spells(record.members[k].key, "block_index")
    ensures record.members[k].value.Num? && forall u :: u in record.members[k].value.text ==> '0' as int <= u as int <= '9' as int
    ensures LinkOf(record).value.block < PowerOfTwo(53)
  {
    KeySpelled();
    SafeBound();
    k := MemberFound(record.members, BLOCK_INDEX);
  }

  /** The first digest is that of 32 zero units, a line feed and the record's text; each later one starts with the one
      before. */
  lemma DigestStarts(hash: Hash, links: seq<Link>, zeros: Text)
    requires links != [] && |zeros| == 32 && forall i :: 0 <= i < 32 ==> zeros[i] == 0
    ensures var k := |links| - 1;
            Digest(hash, links) == hash((if k == 0 then zeros else Digest(hash, links[..k])) + [10] + links[k].text)
  {
    assert zeros == ZERO;
  }
}
