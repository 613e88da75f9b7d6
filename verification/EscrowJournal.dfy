/** The in-memory escrow journal of bin/shadow-dryrun-escrow-leaf.js: append-only rows with tombstones, read as the
    latest row, the latest row as of a height, and the live set.
 */
module EscrowJournal {
  import opened Options
  import LedgerSums

  /** A row without an amount is a tombstone; a name is missing when its index id was never looked up. */
  datatype Row = Row(id: nat, addressId: nat, tickId: nat, address: Option<string>, tick: Option<string>,
                     amount: Option<string>, block: int)

  datatype Append = Append(addressId: nat, tickId: nat, amount: Option<string>, block: int)

  ghost predicate Ascending(rows: seq<Row>) {
    forall i, j :: 0 <= i < j < |rows| ==> rows[i].id < rows[j].id
  }

  // ---- Keys ----

  function Ids(r: Row): (nat, nat) { (r.addressId, r.tickId) }

  function Names(r: Row): (Option<string>, Option<string>) { (r.address, r.tick) }

  function Text(name: Option<string>): string { if name.Some? then name.value else "undefined" }

  function TextKey(r: Row): string { LedgerSums.KeyOf(Text(r.address), Text(r.tick)) }

  /** The last row of a key. */
  function LastBy<K(==)>(rows: seq<Row>, key: Row -> K, k: K): Option<Row> {
    if rows == [] then None
    else if key(rows[|rows| - 1]) == k then Some(rows[|rows| - 1])
    else LastBy(rows[..|rows| - 1], key, k)
  }

  lemma {:induction false} LastIsRow<K>(rows: seq<Row>, key: Row -> K, k: K)
    ensures LastBy(rows, key, k).Some? ==> LastBy(rows, key, k).value in rows && key(LastBy(rows, key, k).value) == k
  {
    if rows == [] {
    } else {
      LastIsRow(rows[..|rows| - 1], key, k);
    }
  }

  lemma LastGrows<K>(rows: seq<Row>, r: Row, key: Row -> K, k: K)
    ensures LastBy(rows + [r], key, k) == if key(r) == k then Some(r) else LastBy(rows, key, k)
  {
    assert (rows + [r])[..|rows|] == rows;
  }

  ghost predicate HoldsLast<K>(m: map<K, Row>, rows: seq<Row>, key: Row -> K, k: K) {
    LastBy(rows, key, k) == if k in m then Some(m[k]) else None
  }

  /** Keeps, per key, the row with the greatest id. */
  method MaxBy<K(!new, ==)>(rows: seq<Row>, key: Row -> K) returns (m: map<K, Row>)
    requires Ascending(rows)
    ensures forall k :: HoldsLast(m, rows, key, k)
  {
    m := map[];
    for i := 0 to |rows|
      invariant forall k :: HoldsLast(m, rows[..i], key, k)
    {
      var r := rows[i];
      var k := key(r);
      assert HoldsLast(m, rows[..i], key, k);
      LastIsRow(rows[..i], key, k);
      ghost var was, before, after := m, rows[..i], rows[..i + 1];
      assert after == before + [r];
      if k !in m || r.id > m[k].id {
        m := m[k := r];
      }
      forall j ensures HoldsLast(m, after, key, j) {
        assert HoldsLast(was, before, key, j);
        LastGrows(before, r, key, j);
      }
    }
    assert rows[..|rows|] == rows;
  }

  // ---- Live sets ----

  ghost predicate LiveAt(live: map<string, string>, rows: seq<Row>, k: string) {
    var last := LastBy(rows, TextKey, k);
    if last.Some? && last.value.amount.Some? then k in live && live[k] == last.value.amount.value else k !in live
  }

  method LiveSet(rows: seq<Row>) returns (live: map<string, string>)
    requires Ascending(rows)
    ensures forall k :: LiveAt(live, rows, k)
  {
    var latest := MaxBy(rows, TextKey);
    live := map k | k in latest && latest[k].amount.Some? :: latest[k].amount.value;
    forall k ensures LiveAt(live, rows, k) {
      assert HoldsLast(latest, rows, TextKey, k);
    }
  }

  // ---- As-of reads ----

  /** The rows written at or below a height. */
  function UpTo(rows: seq<Row>, h: int): seq<Row> {
    if rows == [] then []
    else UpTo(rows[..|rows| - 1], h) + (if rows[|rows| - 1].block <= h then [rows[|rows| - 1]] else [])
  }

  ghost predicate BlockOrdered(rows: seq<Row>) {
    forall i, j :: 0 <= i < j < |rows| ==> rows[i].block <= rows[j].block
  }

  /** In a block-ordered journal those are the first rows: reading as of a height is reading an earlier journal. */
  lemma {:induction false} UpToIsPrefix(rows: seq<Row>, h: int)
    requires BlockOrdered(rows)
    ensures UpTo(rows, h) <= rows
    ensures forall i :: |UpTo(rows, h)| <= i < |rows| ==> rows[i].block > h
  {
    if rows == [] {
    } else {
      var rest := rows[..|rows| - 1];
      UpToIsPrefix(rest, h);
      if rows[|rows| - 1].block <= h {
        assert forall i :: 0 <= i < |rest| ==> rest[i].block <= h;
      }
    }
  }

  lemma AscendingAppend(rows: seq<Row>, r: Row)
    requires Ascending(rows) && forall i :: 0 <= i < |rows| ==> rows[i].id < r.id
    ensures Ascending(rows + [r])
  {
  }

  lemma {:induction false} UpToAscending(rows: seq<Row>, h: int)
    requires Ascending(rows)
    ensures Ascending(UpTo(rows, h)) && forall r :: r in UpTo(rows, h) ==> r in rows
  {
    if rows == [] {
    } else {
      var rest, last := rows[..|rows| - 1], rows[|rows| - 1];
      UpToAscending(rest, h);
      var kept := UpTo(rest, h);
      forall i | 0 <= i < |kept| ensures kept[i].id < last.id { assert kept[i] in rest; }
      AscendingAppend(kept, last);
    }
  }

  function AmountOf(r: Option<Row>): Option<Option<string>> { if r.Some? then Some(r.value.amount) else None }

  // ---- The overlay ----

  /** The rows a batch of appends becomes. */
  function Stamped(batch: seq<Append>, id: nat, addresses: map<nat, string>, ticks: map<nat, string>): seq<Row> {
    if batch == [] then []
    else
      var b := batch[0];
      [Row(id, b.addressId, b.tickId, Lookup(addresses, b.addressId), Lookup(ticks, b.tickId), b.amount, b.block)] +
      Stamped(batch[1..], id + 1, addresses, ticks)
  }

  function Lookup(names: map<nat, string>, id: nat): Option<string> { if id in names then Some(names[id]) else None }

  /** The rows a limited or unlimited read looks at. */
  function Considered(rows: seq<Row>, limit: Option<int>): seq<Row> {
    if limit.None? then rows else UpTo(rows, limit.value)
  }

  lemma ConsideredGrows(rows: seq<Row>, r: Row, limit: Option<int>)
    ensures Considered(rows + [r], limit) ==
            Considered(rows, limit) + (if limit.Some? && r.block > limit.value then [] else [r])
  {
    assert (rows + [r])[..|rows|] == rows;
  }

  method LatestRow(rows: seq<Row>, address: string, tick: string, limit: Option<int>) returns (best: Option<Row>)
    requires Ascending(rows)
    ensures best == LastBy(Considered(rows, limit), Names, (Some(address), Some(tick)))
  {
    best := None;
    ghost var key := (Some(address), Some(tick));
    for i := 0 to |rows|
      invariant best.Some? ==> exists j :: 0 <= j < i && rows[j] == best.value
      invariant best == LastBy(Considered(rows[..i], limit), Names, key)
    {
      var r := rows[i];
      assert rows[..i + 1] == rows[..i] + [r];
      ConsideredGrows(rows[..i], r, limit);
      LastGrows(Considered(rows[..i], limit), r, Names, key);
      assert Considered(rows[..i], limit) + [] == Considered(rows[..i], limit);
      if r.address == Some(address) && r.tick == Some(tick) && !(limit.Some? && r.block > limit.value) {
        if best.None? || r.id > best.value.id { best := Some(r); }
      }
    }
    assert rows[..|rows|] == rows;
  }

  class JournalOverlay {
    var rows: seq<Row>
    var nextId: nat
    var addresses: map<nat, string>
    var ticks: map<nat, string>

    ghost predicate Valid()
      reads this
    {
      Ascending(rows) && forall i :: 0 <= i < |rows| ==> rows[i].id < nextId
    }

    constructor ()
      ensures Valid() && rows == [] && nextId == 1
    {
      rows, nextId, addresses, ticks := [], 1, map[], map[];
    }

    /** Rows read from the index tables name their ids for the appends that follow. */
    method Learn(newAddresses: map<nat, string>, newTicks: map<nat, string>)
      requires Valid()
      modifies this
      ensures Valid() && rows == old(rows) && nextId == old(nextId)
      ensures addresses == old(addresses) + newAddresses && ticks == old(ticks) + newTicks
    {
      addresses, ticks := addresses + newAddresses, ticks + newTicks;
    }

    method Insert(batch: seq<Append>)
      requires Valid()
      modifies this
      ensures Valid() && nextId == old(nextId) + |batch| && addresses == old(addresses) && ticks == old(ticks)
      ensures rows == old(rows) + Stamped(batch, old(nextId), addresses, ticks)
    {
      assert batch[0..] == batch;
      for i := 0 to |batch|
        invariant Valid() && nextId == old(nextId) + i && addresses == old(addresses) && ticks == old(ticks)
        invariant rows + Stamped(batch[i..], nextId, addresses, ticks) == old(rows) + Stamped(batch, old(nextId), addresses, ticks)
      {
        var b := batch[i];
        assert batch[i..][1..] == batch[i + 1..];
        var r := Row(nextId, b.addressId, b.tickId, Lookup(addresses, b.addressId), Lookup(ticks, b.tickId), b.amount, b.block);
        assert rows + ([r] + Stamped(batch[i + 1..], nextId + 1, addresses, ticks)) ==
               (rows + [r]) + Stamped(batch[i + 1..], nextId + 1, addresses, ticks);
        AscendingAppend(rows, r);
        rows, nextId := rows + [r], nextId + 1;
      }
    }

    method Reset()
      modifies this
      ensures Valid() && rows == [] && nextId == 1 && addresses == old(addresses) && ticks == old(ticks)
    {
      rows, nextId := [], 1;
    }

    /** The latest row of a pair of names, at or below a height when one is given. */
    method Latest(address: string, tick: string, limit: Option<int>) returns (r: Option<Option<string>>)
      requires Valid()
      ensures limit.None? ==> r == AmountOf(LastBy(rows, Names, (Some(address), Some(tick))))
      ensures limit.Some? ==> r == AmountOf(LastBy(UpTo(rows, limit.value), Names, (Some(address), Some(tick))))
    {
      var best := LatestRow(rows, address, tick, limit);
      return AmountOf(best);
    }

    /** The latest rows of the pairs whose two ids are both asked for. */
    method LatestAsked(asked: set<nat>) returns (m: map<(nat, nat), Row>)
      requires Valid()
      ensures forall k :: k in m <==> k.0 in asked && k.1 in asked && LastBy(rows, Ids, k).Some?
      ensures forall k :: k in m ==> LastBy(rows, Ids, k) == Some(m[k])
    {
      var latest := MaxBy(rows, Ids);
      m := map k | k in latest && k.0 in asked && k.1 in asked :: latest[k];
      forall k
        ensures k in m <==> k.0 in asked && k.1 in asked && LastBy(rows, Ids, k).Some?
        ensures k in m ==> LastBy(rows, Ids, k) == Some(m[k])
      {
        assert HoldsLast(latest, rows, Ids, k);
      }
    }
  }

  // ---- One history per key ----

  /** Two keys that select the same rows have the same last row. */
  lemma {:induction false} SameLast<J, K>(rows: seq<Row>, f: Row -> J, j: J, g: Row -> K, k: K)
    requires forall i :: 0 <= i < |rows| ==> (f(rows[i]) == j <==> g(rows[i]) == k)
    ensures LastBy(rows, f, j) == LastBy(rows, g, k)
  {
    if rows == [] {
    } else {
      SameLast(rows[..|rows| - 1], f, j, g, k);
    }
  }

  /** Ids and names are in bijection, every name is known, and no address holds a tab. */
  ghost predicate Named(rows: seq<Row>) {
    && (forall i :: 0 <= i < |rows| ==> rows[i].address.Some? && rows[i].tick.Some? && '\t' !in rows[i].address.value)
    && (forall i, j :: 0 <= i < |rows| && 0 <= j < |rows| ==>
          (rows[i].addressId == rows[j].addressId <==> rows[i].address == rows[j].address) &&
          (rows[i].tickId == rows[j].tickId <==> rows[i].tick == rows[j].tick))
  }

  /** The amounts written for a pair of names, in order: the abstract history. */
  function History(rows: seq<Row>, address: string, tick: string): seq<Option<string>> {
    if rows == [] then []
    else
      var r := rows[|rows| - 1];
      History(rows[..|rows| - 1], address, tick) + (if Names(r) == (Some(address), Some(tick)) then [r.amount] else [])
  }

  /** The last entry of a history, a tombstone included. */
  function LastEntry(h: seq<Option<string>>): Option<Option<string>> { if h == [] then None else Some(h[|h| - 1]) }

  lemma {:induction false} LatestIsLastEntry(rows: seq<Row>, address: string, tick: string)
    ensures AmountOf(LastBy(rows, Names, (Some(address), Some(tick)))) == LastEntry(History(rows, address, tick))
  {
    if rows == [] {
    } else {
      LatestIsLastEntry(rows[..|rows| - 1], address, tick);
    }
  }

  lemma ByTextIsByName(rows: seq<Row>, address: string, tick: string)
    requires Named(rows) && '\t' !in address
    ensures LastBy(rows, TextKey, LedgerSums.KeyOf(address, tick)) == LastBy(rows, Names, (Some(address), Some(tick)))
  {
    forall i | 0 <= i < |rows|
      ensures TextKey(rows[i]) == LedgerSums.KeyOf(address, tick) <==> Names(rows[i]) == (Some(address), Some(tick))
    {
      if TextKey(rows[i]) == LedgerSums.KeyOf(address, tick) {
        LedgerSums.KeysDistinct(rows[i].address.value, rows[i].tick.value, address, tick);
      }
    }
    SameLast(rows, TextKey, LedgerSums.KeyOf(address, tick), Names, (Some(address), Some(tick)));
  }

  lemma ByIdsIsByName(rows: seq<Row>, r: Row)
    requires Named(rows) && r in rows
    ensures LastBy(rows, Ids, Ids(r)) == LastBy(rows, Names, Names(r))
  {
    var i :| 0 <= i < |rows| && rows[i] == r;
    SameLast(rows, Ids, Ids(r), Names, Names(r));
  }

  /** Every read of the journal sees the same history: the named latest row, the latest row by ids, and the live set,
      which drops a key whose last entry is a tombstone. */
  lemma ReadsAgree(rows: seq<Row>, live: map<string, string>, r: Row)
    requires Named(rows) && r in rows && forall k :: LiveAt(live, rows, k)
    ensures var address, tick := r.address.value, r.tick.value;
            var entry := LastEntry(History(rows, address, tick));
            var k := LedgerSums.KeyOf(address, tick);
            && entry.Some?
            && AmountOf(LastBy(rows, Names, Names(r))) == entry && AmountOf(LastBy(rows, Ids, Ids(r))) == entry
            && (k in live <==> entry.value.Some?) && (k in live ==> Some(live[k]) == entry.value)
  {
    var address, tick := r.address.value, r.tick.value;
    var k := LedgerSums.KeyOf(address, tick);
    LatestIsLastEntry(rows, address, tick);
    ByIdsIsByName(rows, r);
    ByTextIsByName(rows, address, tick);
    LastFound(rows, Names, r);
    assert LiveAt(live, rows, k);
  }

  lemma {:induction false} LastFound<K>(rows: seq<Row>, key: Row -> K, r: Row)
    requires r in rows
    ensures LastBy(rows, key, key(r)).Some?
  {
    if r != rows[|rows| - 1] { LastFound(rows[..|rows| - 1], key, r); }
  }

  /** On a block-ordered journal the read as of a height is the live set of the rows up to it, which are the rows that
      had been written by then, still in order of their ids. */
  lemma AsOfIsLive(rows: seq<Row>, h: int, live: map<string, string>, address: string, tick: string)
    requires Named(rows) && BlockOrdered(rows) && '\t' !in address && forall k :: LiveAt(live, UpTo(rows, h), k)
    ensures UpTo(rows, h) <= rows && (Ascending(rows) ==> Ascending(UpTo(rows, h)))
    ensures var asOf := AmountOf(LastBy(UpTo(rows, h), Names, (Some(address), Some(tick))));
            var k := LedgerSums.KeyOf(address, tick);
            && asOf == LastEntry(History(UpTo(rows, h), address, tick))
            && (k in live <==> asOf.Some? && asOf.value.Some?) && (k in live ==> asOf == Some(Some(live[k])))
  {
    var kept := UpTo(rows, h);
    UpToIsPrefix(rows, h);
    if Ascending(rows) { UpToAscending(rows, h); }
    assert Named(kept);
    LatestIsLastEntry(kept, address, tick);
    ByTextIsByName(kept, address, tick);
    assert LiveAt(live, kept, LedgerSums.KeyOf(address, tick));
  }

  // ---- From appends to reads ----

  /** Each append becomes one row, numbered on, with its own ids, amount and block and the names known for its ids. */
  lemma {:induction false} StampedAt(batch: seq<Append>, id: nat, addresses: map<nat, string>, ticks: map<nat, string>, i: nat)
    requires i < |batch|
    ensures var rows := Stamped(batch, id, addresses, ticks);
            && |rows| == |batch| && rows[i].id == id + i
            && rows[i].addressId == batch[i].addressId && rows[i].tickId == batch[i].tickId
            && rows[i].amount == batch[i].amount && rows[i].block == batch[i].block
            && (batch[i].addressId in addresses ==> rows[i].address == Some(addresses[batch[i].addressId]))
            && (batch[i].addressId !in addresses ==> rows[i].address == None)
            && (batch[i].tickId in ticks ==> rows[i].tick == Some(ticks[batch[i].tickId]))
            && (batch[i].tickId !in ticks ==> rows[i].tick == None)
  {
    if |batch| == 1 {
    } else if i == 0 {
      StampedAt(batch[1..], id + 1, addresses, ticks, 0);
    } else {
      StampedAt(batch[1..], id + 1, addresses, ticks, i - 1);
    }
  }

  predicate Within(block: int, limit: Option<int>) { limit.None? || block <= limit.value }

  lemma ReadGrows<K>(rows: seq<Row>, r: Row, key: Row -> K, k: K, limit: Option<int>)
    ensures LastBy(Considered(rows + [r], limit), key, k) ==
            if Within(r.block, limit) && key(r) == k then Some(r) else LastBy(Considered(rows, limit), key, k)
  {
    var before := Considered(rows, limit);
    ConsideredGrows(rows, r, limit);
    assert before + [] == before;
    LastGrows(before, r, key, k);
  }

  /** The last considered row of a key decides, whatever stands before it. */
  lemma {:induction false} LastWithin<K>(rows: seq<Row>, key: Row -> K, i: nat, limit: Option<int>)
    requires i < |rows| && Within(rows[i].block, limit)
    requires forall j :: i < j < |rows| && Within(rows[j].block, limit) ==> key(rows[j]) != key(rows[i])
    ensures LastBy(Considered(rows, limit), key, key(rows[i])) == Some(rows[i])
  {
    var n := |rows| - 1;
    var front := rows[..n];
    assert rows == front + [rows[n]];
    ReadGrows(front, rows[n], key, key(rows[i]), limit);
    if i < n { LastWithin(front, key, i, limit); }
  }

  /** Different ids have different names. */
  ghost predicate Unshared(names: map<nat, string>) {
    forall x, y :: x in names && y in names && names[x] == names[y] ==> x == y
  }

  /** The i-th append is the last of its pair, at or below the height if one is given, and its ids are named. */
  ghost predicate LastAppend(batch: seq<Append>, i: nat, limit: Option<int>, addresses: map<nat, string>,
                             ticks: map<nat, string>) {
    && i < |batch| && Within(batch[i].block, limit) && batch[i].addressId in addresses && batch[i].tickId in ticks
    && forall j :: i < j < |batch| && Within(batch[j].block, limit) ==>
         batch[j].addressId != batch[i].addressId || batch[j].tickId != batch[i].tickId
  }

  /** After any appends to any journal, the read of a pair by its names and the read by its ids are the amount of its
      last append, a tombstone included; as of a height, of its last append at or below it. */
  lemma LatestIsLastAppend(rows: seq<Row>, batch: seq<Append>, id: nat, addresses: map<nat, string>,
                           ticks: map<nat, string>, i: nat, limit: Option<int>)
    requires Unshared(addresses) && Unshared(ticks) && LastAppend(batch, i, limit, addresses, ticks)
    ensures var all, b := rows + Stamped(batch, id, addresses, ticks), batch[i];
            var names := (Some(addresses[b.addressId]), Some(ticks[b.tickId]));
            && AmountOf(LastBy(Considered(all, limit), Names, names)) == Some(b.amount)
            && AmountOf(LastBy(Considered(all, limit), Ids, (b.addressId, b.tickId))) == Some(b.amount)
  {
    var stamped := Stamped(batch, id, addresses, ticks);
    var all, n := rows + stamped, |rows|;
    StampedAt(batch, id, addresses, ticks, i);
    assert all[n + i] == stamped[i];
    forall j | n + i < j < |all| && Within(all[j].block, limit)
      ensures Names(all[j]) != Names(all[n + i]) && Ids(all[j]) != Ids(all[n + i])
    {
      assert all[j] == stamped[j - n];
      StampedAt(batch, id, addresses, ticks, j - n);
    }
    LastWithin(all, Names, n + i, limit);
    LastWithin(all, Ids, n + i, limit);
  }

  /** Appends that name no row of the pair leave its reads as they were. */
  lemma {:induction false} OthersUnread<K>(rows: seq<Row>, more: seq<Row>, key: Row -> K, k: K, limit: Option<int>)
    requires forall j :: 0 <= j < |more| && Within(more[j].block, limit) ==> key(more[j]) != k
    ensures LastBy(Considered(rows + more, limit), key, k) == LastBy(Considered(rows, limit), key, k)
  {
    if more == [] {
      assert rows + more == rows;
    } else {
      var front, r := rows + more[..|more| - 1], more[|more| - 1];
      OthersUnread(rows, more[..|more| - 1], key, k, limit);
      assert rows + more == front + [r];
      ReadGrows(front, r, key, k, limit);
    }
  }

  /** A row whose address was never looked up shares its live key with the rows of an address named "undefined". */
  lemma UnknownAddressCollides(r: Row, s: Row)
    requires r.address == None && s.address == Some("undefined") && r.tick == s.tick
    ensures TextKey(r) == TextKey(s)
  {
  }

  // ---- Comparing the two journals ----

  datatype Mismatch = Missing(key: string) | Divergent(key: string) | Extra(key: string)

  /** What is wrong with a key, if anything. */
  function MismatchAt(incremental: map<string, string>, replay: map<string, string>, canonical: string -> string,
                      k: string): Option<Mismatch> {
    if k in replay then
      if k !in incremental then Some(Missing(k))
      else if canonical(incremental[k]) != canonical(replay[k]) then Some(Divergent(k))
      else None
    else if k in incremental then Some(Extra(k)) else None
  }

  method Mismatches(incremental: map<string, string>, replay: map<string, string>, canonical: string -> string)
    returns (out: seq<Mismatch>)
    ensures forall x :: x in out <==> MismatchAt(incremental, replay, canonical, x.key) == Some(x)
    ensures out == [] <==> incremental.Keys == replay.Keys &&
                           forall k :: k in replay && k in incremental ==> canonical(incremental[k]) == canonical(replay[k])
  {
    out := [];
    var left := replay.Keys;
    while left != {}
      invariant left <= replay.Keys
      invariant forall x :: x in out <==> x.key in replay.Keys - left && MismatchAt(incremental, replay, canonical, x.key) == Some(x)
      decreases |left|
    {
      var k :| k in left;
      left := left - {k};
      if k !in incremental {
        out := out + [Missing(k)];
      } else if canonical(incremental[k]) != canonical(replay[k]) {
        out := out + [Divergent(k)];
      }
    }
    left := incremental.Keys;
    while left != {}
      invariant left <= incremental.Keys
      invariant forall x :: x in out <==> (x.key in replay || x.key in incremental.Keys - left) &&
                                          MismatchAt(incremental, replay, canonical, x.key) == Some(x)
      decreases |left|
    {
      var k :| k in left;
      left := left - {k};
      if k !in replay { out := out + [Extra(k)]; }
    }
    NoMismatchIff(incremental, replay, canonical);
    if out != [] {
      assert out[0] in out;
    }
  }

  lemma NoMismatchIff(incremental: map<string, string>, replay: map<string, string>, canonical: string -> string)
    ensures (forall k :: MismatchAt(incremental, replay, canonical, k) == None) <==>
            incremental.Keys == replay.Keys &&
            forall k :: k in replay && k in incremental ==> canonical(incremental[k]) == canonical(replay[k])
  {
    if forall k :: MismatchAt(incremental, replay, canonical, k) == None {
      forall k ensures k in incremental <==> k in replay { assert MismatchAt(incremental, replay, canonical, k) == None; }
      forall k | k in replay && k in incremental ensures canonical(incremental[k]) == canonical(replay[k]) {
        assert MismatchAt(incremental, replay, canonical, k) == None;
      }
    }
  }
}
