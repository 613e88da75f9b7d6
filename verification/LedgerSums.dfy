/** The two ways bin/compare_credit_debit_sum.js totals a ledger, and their comparison.

    Amounts are exact, in units of the eighteenth decimal place; a rounded amount is an integer.
 */
module LedgerSums {
  // ---- Rounding half away from zero ----

  function Round(x: real): int {
    if x >= 0.0 then (x + 0.5).Floor else -((-x + 0.5).Floor)
  }

  /** x lies midway between two integers. */
  predicate Tie(x: real) { x + 0.5 == (x + 0.5).Floor as real }

  /** One rounded addition, as bcadd makes it. */
  function RoundedAdd(total: int, x: real): int { Round(total as real + x) }

  lemma FloorShift(n: int, x: real)
    ensures (n as real + x).Floor == n + x.Floor
  {
    var f := x.Floor;
    assert (n + f) as real == n as real + f as real;
  }

  /** Rounding after an addition equals rounding the addend, unless the addend is a tie and the sum changes sign. */
  lemma RoundedAddExactIff(total: int, x: real)
    ensures RoundedAdd(total, x) == total + Round(x) <==>
            !Tie(x) || (x >= 0.0 <==> total as real + x >= 0.0)
  {
    var s := total as real + x;
    FloorShift(total, x + 0.5);
    FloorShift(-total, -x + 0.5);
    assert s + 0.5 == total as real + (x + 0.5) && -s + 0.5 == (-total) as real + (-x + 0.5);
    FloorMirror(x);
  }

  lemma FloorMirror(x: real)
    ensures (x + 0.5).Floor == -((-x + 0.5).Floor) + (if Tie(x) then 1 else 0)
  {
  }

  function SumOfRounded(amounts: seq<real>): int {
    if amounts == [] then 0 else SumOfRounded(amounts[..|amounts| - 1]) + Round(amounts[|amounts| - 1])
  }

  function RunningSum(amounts: seq<real>): int {
    if amounts == [] then 0 else RoundedAdd(RunningSum(amounts[..|amounts| - 1]), amounts[|amounts| - 1])
  }

  ghost predicate NonNegative(amounts: seq<real>) { forall i :: 0 <= i < |amounts| ==> amounts[i] >= 0.0 }

  /** Rounding after every addition loses nothing on non-negative amounts of any precision. */
  lemma {:induction false} RunningIsSum(amounts: seq<real>)
    requires NonNegative(amounts)
    ensures RunningSum(amounts) == SumOfRounded(amounts) >= 0
  {
    if amounts == [] {
    } else {
      var last := |amounts| - 1;
      RunningIsSum(amounts[..last]);
      RoundedAddExactIff(RunningSum(amounts[..last]), amounts[last]);
    }
  }

  /** With a negative amount the two can differ: 1 and then -0.5. */
  lemma NegativeAmountsDiffer()
    ensures RunningSum([1.0, -0.5]) == 1 && SumOfRounded([1.0, -0.5]) == 0
  {
    assert [1.0, -0.5][..1] == [1.0] && [1.0][..0] == [];
    assert Round(1.0) == 1 && Round(0.5) == 1 && Round(-0.5) == -1;
    assert RunningSum([1.0]) == 1 && SumOfRounded([1.0]) == 1;
  }

  // ---- Totals per key ----

  datatype Row = Row(address: string, tick: string, amount: real)

  function KeyOf(address: string, tick: string): string { address + "\t" + tick }

  function RowKey(r: Row): string { KeyOf(r.address, r.tick) }

  /** The amounts of one key, in row order. */
  function AmountsOf(rows: seq<Row>, k: string): seq<real> {
    if rows == [] then []
    else
      var last := |rows| - 1;
      AmountsOf(rows[..last], k) + (if RowKey(rows[last]) == k then [rows[last].amount] else [])
  }

  /** The running sum of one key. */
  function RunningTotal(rows: seq<Row>, k: string): int { RunningSum(AmountsOf(rows, k)) }

  ghost predicate Appears(rows: seq<Row>, k: string) { exists i :: 0 <= i < |rows| && RowKey(rows[i]) == k }

  datatype Entry = Entry(credit: int, debit: int)

  function Net(e: Entry): int { e.credit - e.debit }

  /** An absent key reads as zero. */
  function Get(m: map<string, Entry>, k: string): Entry { if k in m then m[k] else Entry(0, 0) }

  ghost predicate FoldedAt(m: map<string, Entry>, credits: seq<Row>, debits: seq<Row>, k: string) {
    && (k in m <==> Appears(credits, k) || Appears(debits, k))
    && Get(m, k) == Entry(RunningTotal(credits, k), RunningTotal(debits, k))
  }

  /** The fold's map after some rows of each side. */
  ghost predicate Folded(m: map<string, Entry>, credits: seq<Row>, debits: seq<Row>) {
    forall k :: FoldedAt(m, credits, debits, k)
  }

  lemma AppearsGrows(rows: seq<Row>, i: nat, k: string)
    requires i < |rows|
    ensures Appears(rows[..i + 1], k) <==> Appears(rows[..i], k) || RowKey(rows[i]) == k
    ensures AmountsOf(rows[..i + 1], k) == AmountsOf(rows[..i], k) + (if RowKey(rows[i]) == k then [rows[i].amount] else [])
  {
    var more := rows[..i + 1];
    assert more[..i] == rows[..i] && more[i] == rows[i];
    if Appears(rows[..i], k) {
      var j :| 0 <= j < i && RowKey(rows[..i][j]) == k;
      assert RowKey(more[j]) == k;
    }
    if Appears(more, k) {
      var j :| 0 <= j < i + 1 && RowKey(more[j]) == k;
      if j < i { assert RowKey(rows[..i][j]) == k; }
    }
  }

  lemma RunningGrows(amounts: seq<real>, x: real)
    ensures RunningSum(amounts + [x]) == RoundedAdd(RunningSum(amounts), x)
  {
    assert (amounts + [x])[..|amounts|] == amounts;
  }

  function Credit(m: map<string, Entry>, r: Row): map<string, Entry> {
    var e := Get(m, RowKey(r));
    m[RowKey(r) := e.(credit := RoundedAdd(e.credit, r.amount))]
  }

  function Debit(m: map<string, Entry>, r: Row): map<string, Entry> {
    var e := Get(m, RowKey(r));
    m[RowKey(r) := e.(debit := RoundedAdd(e.debit, r.amount))]
  }

  /** `after` is `before` and one more row. */
  ghost predicate Grows(before: seq<Row>, r: Row, after: seq<Row>, k: string) {
    && (Appears(after, k) <==> Appears(before, k) || RowKey(r) == k)
    && RunningTotal(after, k) == if RowKey(r) == k then RoundedAdd(RunningTotal(before, k), r.amount) else RunningTotal(before, k)
  }

  lemma PrefixGrows(rows: seq<Row>, i: nat, k: string)
    requires i < |rows|
    ensures Grows(rows[..i], rows[i], rows[..i + 1], k)
  {
    AppearsGrows(rows, i, k);
    RunningGrows(AmountsOf(rows[..i], k), rows[i].amount);
    var a := AmountsOf(rows[..i], k);
    assert a + [] == a;
  }

  lemma CreditAt(m: map<string, Entry>, r: Row, before: seq<Row>, after: seq<Row>, debits: seq<Row>, k: string)
    requires FoldedAt(m, before, debits, k) && Grows(before, r, after, k)
    ensures FoldedAt(Credit(m, r), after, debits, k)
  {
  }

  lemma DebitAt(m: map<string, Entry>, r: Row, credits: seq<Row>, before: seq<Row>, after: seq<Row>, k: string)
    requires FoldedAt(m, credits, before, k) && Grows(before, r, after, k)
    ensures FoldedAt(Debit(m, r), credits, after, k)
  {
  }

  lemma AddCredit(m: map<string, Entry>, credits: seq<Row>, i: nat, debits: seq<Row>)
    requires i < |credits| && Folded(m, credits[..i], debits)
    ensures Folded(Credit(m, credits[i]), credits[..i + 1], debits)
  {
    var after, rows := Credit(m, credits[i]), credits[..i + 1];
    forall k ensures FoldedAt(after, rows, debits, k) {
      PrefixGrows(credits, i, k);
      CreditAt(m, credits[i], credits[..i], credits[..i + 1], debits, k);
    }
  }

  lemma AddDebit(m: map<string, Entry>, credits: seq<Row>, debits: seq<Row>, i: nat)
    requires i < |debits| && Folded(m, credits, debits[..i])
    ensures Folded(Debit(m, debits[i]), credits, debits[..i + 1])
  {
    var after, rows := Debit(m, debits[i]), debits[..i + 1];
    forall k ensures FoldedAt(after, credits, rows, k) {
      PrefixGrows(debits, i, k);
      DebitAt(m, debits[i], credits, debits[..i], debits[..i + 1], k);
    }
  }

  method FoldInJs(credits: seq<Row>, debits: seq<Row>) returns (m: map<string, Entry>)
    ensures Folded(m, credits, debits)
  {
    m := map[];
    for i := 0 to |credits|
      invariant Folded(m, credits[..i], [])
    {
      AddCredit(m, credits, i, []);
      m := Credit(m, credits[i]);
    }
    assert credits[..|credits|] == credits;
    for i := 0 to |debits|
      invariant Folded(m, credits, debits[..i])
    {
      AddDebit(m, credits, debits, i);
      m := Debit(m, debits[i]);
    }
    assert debits[..|debits|] == debits;
  }

  // ---- The grouped sums ----

  /** The total of one key in the grouped query: each amount is cast to eighteen places, then summed. */
  function GroupTotal(rows: seq<Row>, k: string): int { SumOfRounded(AmountsOf(rows, k)) }

  datatype Group = Group(key: string, total: int)

  /** One group per key that appears. */
  ghost predicate GroupsOf(groups: seq<Group>, rows: seq<Row>) {
    && (forall i, j :: 0 <= i < j < |groups| ==> groups[i].key != groups[j].key)
    && (forall i :: 0 <= i < |groups| ==> Appears(rows, groups[i].key) && groups[i].total == GroupTotal(rows, groups[i].key))
    && (forall k :: Appears(rows, k) ==> HasGroup(groups, k))
  }

  ghost predicate HasGroup(groups: seq<Group>, k: string) { exists i :: 0 <= i < |groups| && groups[i].key == k }

  lemma {:induction false} AbsentIsZero(rows: seq<Row>, k: string)
    requires !Appears(rows, k)
    ensures AmountsOf(rows, k) == []
  {
    if rows == [] {
    } else {
      var last := |rows| - 1;
      AppearsGrows(rows, last, k);
      assert rows[..last + 1] == rows;
      AbsentIsZero(rows[..last], k);
    }
  }

  /** The totals a side of the map holds once the groups are read. */
  function Read(groups: seq<Group>, k: string): int {
    if groups == [] then 0
    else if groups[|groups| - 1].key == k then groups[|groups| - 1].total
    else Read(groups[..|groups| - 1], k)
  }

  lemma {:induction false} ReadIsTotal(groups: seq<Group>, i: nat)
    requires i < |groups| && forall i, j :: 0 <= i < j < |groups| ==> groups[i].key != groups[j].key
    ensures Read(groups, groups[i].key) == groups[i].total
  {
    if i < |groups| - 1 { ReadIsTotal(groups[..|groups| - 1], i); }
  }

  lemma {:induction false} ReadNone(groups: seq<Group>, k: string)
    requires !HasGroup(groups, k)
    ensures Read(groups, k) == 0
  {
    if groups == [] {
    } else {
      var last := |groups| - 1;
      GroupGrows(groups, last, k);
      assert groups[..last + 1] == groups;
      ReadNone(groups[..last], k);
    }
  }

  lemma ReadGroups(groups: seq<Group>, rows: seq<Row>, k: string)
    requires GroupsOf(groups, rows)
    ensures Read(groups, k) == GroupTotal(rows, k)
    ensures HasGroup(groups, k) <==> Appears(rows, k)
  {
    if HasGroup(groups, k) {
      var i :| 0 <= i < |groups| && groups[i].key == k;
      ReadIsTotal(groups, i);
    } else {
      ReadNone(groups, k);
      AbsentIsZero(rows, k);
    }
  }

  ghost predicate ReadAt(m: map<string, Entry>, credits: seq<Group>, debits: seq<Group>, k: string) {
    && (k in m <==> HasGroup(credits, k) || HasGroup(debits, k))
    && Get(m, k) == Entry(Read(credits, k), Read(debits, k))
  }

  lemma GroupGrows(groups: seq<Group>, i: nat, k: string)
    requires i < |groups|
    ensures HasGroup(groups[..i + 1], k) <==> HasGroup(groups[..i], k) || groups[i].key == k
    ensures Read(groups[..i + 1], k) == if groups[i].key == k then groups[i].total else Read(groups[..i], k)
  {
    var more := groups[..i + 1];
    assert more[..i] == groups[..i] && more[i] == groups[i];
    if HasGroup(groups[..i], k) {
      var j :| 0 <= j < i && groups[..i][j].key == k;
      assert more[j].key == k;
    }
    if HasGroup(more, k) {
      var j :| 0 <= j < i + 1 && more[j].key == k;
      if j < i { assert groups[..i][j].key == k; }
    }
  }

  method SumInSql(creditGroups: seq<Group>, debitGroups: seq<Group>) returns (m: map<string, Entry>)
    ensures forall k :: ReadAt(m, creditGroups, debitGroups, k)
  {
    m := map[];
    for i := 0 to |creditGroups|
      invariant forall k :: ReadAt(m, creditGroups[..i], [], k)
    {
      ghost var was, before := m, creditGroups[..i];
      var g := creditGroups[i];
      m := m[g.key := Get(m, g.key).(credit := g.total)];
      ghost var after := creditGroups[..i + 1];
      forall k ensures ReadAt(m, after, [], k) {
        assert ReadAt(was, before, [], k);
        GroupGrows(creditGroups, i, k);
      }
    }
    assert creditGroups[..|creditGroups|] == creditGroups;
    for i := 0 to |debitGroups|
      invariant forall k :: ReadAt(m, creditGroups, debitGroups[..i], k)
    {
      ghost var was, before := m, debitGroups[..i];
      var g := debitGroups[i];
      m := m[g.key := Get(m, g.key).(debit := g.total)];
      ghost var after := debitGroups[..i + 1];
      forall k ensures ReadAt(m, creditGroups, after, k) {
        assert ReadAt(was, creditGroups, before, k);
        GroupGrows(debitGroups, i, k);
      }
    }
    assert debitGroups[..|debitGroups|] == debitGroups;
  }

  // ---- Agreement ----

  ghost predicate NonNegativeRows(rows: seq<Row>) { forall i :: 0 <= i < |rows| ==> rows[i].amount >= 0.0 }

  lemma {:induction false} AmountsNonNegative(rows: seq<Row>, k: string)
    requires NonNegativeRows(rows)
    ensures NonNegative(AmountsOf(rows, k))
  {
    if rows == [] {
    } else {
      AmountsNonNegative(rows[..|rows| - 1], k);
    }
  }

  /** On non-negative rows the fold and the grouped sums are the same map. */
  lemma FoldIsGrouped(credits: seq<Row>, debits: seq<Row>, creditGroups: seq<Group>, debitGroups: seq<Group>,
                      js: map<string, Entry>, sql: map<string, Entry>)
    requires NonNegativeRows(credits) && NonNegativeRows(debits)
    requires GroupsOf(creditGroups, credits) && GroupsOf(debitGroups, debits)
    requires Folded(js, credits, debits) && forall k :: ReadAt(sql, creditGroups, debitGroups, k)
    ensures js == sql
  {
    forall k ensures (k in js <==> k in sql) && Get(js, k) == Get(sql, k) {
      assert FoldedAt(js, credits, debits, k) && ReadAt(sql, creditGroups, debitGroups, k);
      SideAgrees(credits, creditGroups, k);
      SideAgrees(debits, debitGroups, k);
    }
    assert forall k :: k in js ==> js[k] == Get(js, k);
    assert forall k :: k in sql ==> sql[k] == Get(sql, k);
  }

  lemma SideAgrees(rows: seq<Row>, groups: seq<Group>, k: string)
    requires NonNegativeRows(rows) && GroupsOf(groups, rows)
    ensures RunningTotal(rows, k) == Read(groups, k) && (Appears(rows, k) <==> HasGroup(groups, k))
  {
    AmountsNonNegative(rows, k);
    RunningIsSum(AmountsOf(rows, k));
    ReadGroups(groups, rows, k);
  }

  // ---- Row order and keys ----

  function Part(r: Row, k: string): int { if RowKey(r) == k then Round(r.amount) else 0 }

  lemma {:induction false} GroupTotalSplit(a: seq<Row>, x: Row, b: seq<Row>, k: string)
    ensures GroupTotal(a + [x] + b, k) == GroupTotal(a + b, k) + Part(x, k)
    decreases |b|
  {
    if b == [] {
      assert a + [x] + b == a + [x] && a + b == a;
      GroupTotalAppend(a, x, k);
    } else {
      var last := |b| - 1;
      var y, c := b[last], b[..last];
      assert a + [x] + b == (a + [x] + c) + [y] && a + b == (a + c) + [y];
      GroupTotalAppend(a + [x] + c, y, k);
      GroupTotalAppend(a + c, y, k);
      GroupTotalSplit(a, x, c, k);
    }
  }

  lemma GroupTotalAppend(a: seq<Row>, x: Row, k: string)
    ensures GroupTotal(a + [x], k) == GroupTotal(a, k) + Part(x, k)
  {
    assert (a + [x])[..|a|] == a;
    var m := AmountsOf(a, k);
    assert (m + [x.amount])[..|m|] == m;
    assert m + [] == m;
  }

  lemma TakeOut(rest: seq<Row>, x: Row, b: seq<Row>) returns (c: seq<Row>, d: seq<Row>)
    requires multiset(rest + [x]) == multiset(b)
    ensures b == c + [x] + d && multiset(rest) == multiset(c + d)
  {
    assert x in multiset(rest + [x]);
    assert x in b;
    var i :| 0 <= i < |b| && b[i] == x;
    c, d := b[..i], b[i + 1..];
    assert b == c + [x] + d;
    var m, n := multiset(rest), multiset(c + d);
    assert m + multiset{x} == n + multiset{x};
    assert m == (m + multiset{x}) - multiset{x} && n == (n + multiset{x}) - multiset{x};
  }

  /** The grouped total, and so the fold on non-negative rows, does not depend on the order of the rows. */
  lemma {:induction false} OrderIrrelevant(a: seq<Row>, b: seq<Row>, k: string)
    requires multiset(a) == multiset(b)
    ensures GroupTotal(a, k) == GroupTotal(b, k)
    decreases |a|
  {
    if a == [] {
      assert |multiset(b)| == 0;
      assert b == [];
    } else {
      var last := |a| - 1;
      var x, rest := a[last], a[..last];
      assert a == rest + [x];
      var c, d := TakeOut(rest, x, b);
      OrderIrrelevant(rest, c + d, k);
      GroupTotalAppend(rest, x, k);
      GroupTotalSplit(c, x, d, k);
    }
  }

  function TabAt(s: string): nat { if s == [] || s[0] == '\t' then 0 else 1 + TabAt(s[1..]) }

  lemma {:induction false} TabEndsAddress(a: string, t: string)
    requires '\t' !in a
    ensures TabAt(KeyOf(a, t)) == |a| && KeyOf(a, t)[..|a|] == a && KeyOf(a, t)[|a| + 1..] == t
  {
    if a == [] {
    } else {
      assert KeyOf(a, t)[1..] == KeyOf(a[1..], t);
      TabEndsAddress(a[1..], t);
    }
  }

  /** Distinct pairs have distinct keys as long as addresses hold no tab. */
  lemma KeysDistinct(a: string, t: string, b: string, u: string)
    requires '\t' !in a && '\t' !in b && KeyOf(a, t) == KeyOf(b, u)
    ensures a == b && t == u
  {
    TabEndsAddress(a, t);
    TabEndsAddress(b, u);
  }

  // ---- Reporting differences ----

  datatype Diff = Diff(key: string, js: Entry, sql: Entry)

  ghost predicate Reports(diffs: seq<Diff>, k: string) { exists i :: 0 <= i < |diffs| && diffs[i].key == k }

  method DiffMaps(js: map<string, Entry>, sql: map<string, Entry>) returns (diffs: seq<Diff>)
    ensures forall k :: Reports(diffs, k) <==> Get(js, k) != Get(sql, k)
    ensures forall i :: 0 <= i < |diffs| ==> diffs[i] == Diff(diffs[i].key, Get(js, diffs[i].key), Get(sql, diffs[i].key))
    ensures diffs == [] <==> forall k :: Get(js, k) == Get(sql, k)
  {
    diffs := [];
    var left := js.Keys + sql.Keys;
    while left != {}
      invariant left <= js.Keys + sql.Keys
      invariant forall k :: Reports(diffs, k) <==> k in js.Keys + sql.Keys - left && Get(js, k) != Get(sql, k)
      invariant forall i :: 0 <= i < |diffs| ==> diffs[i] == Diff(diffs[i].key, Get(js, diffs[i].key), Get(sql, diffs[i].key))
      decreases |left|
    {
      var k :| k in left;
      left := left - {k};
      var j, s := Get(js, k), Get(sql, k);
      if j.credit != s.credit || j.debit != s.debit || Net(j) != Net(s) {
        ReportsAppend(diffs, Diff(k, j, s));
        diffs := diffs + [Diff(k, j, s)];
      }
    }
    if diffs != [] { assert Reports(diffs, diffs[0].key); }
  }

  lemma ReportsAppend(diffs: seq<Diff>, d: Diff)
    ensures forall k :: Reports(diffs + [d], k) <==> Reports(diffs, k) || k == d.key
  {
    forall k ensures Reports(diffs + [d], k) <==> Reports(diffs, k) || k == d.key {
      var more := diffs + [d];
      assert more[|diffs|] == d;
      if Reports(diffs, k) {
        var i :| 0 <= i < |diffs| && diffs[i].key == k;
        assert more[i].key == k;
      }
    }
  }

  /** The comparison finds nothing on any ledger of non-negative amounts. */
  method Compare(credits: seq<Row>, debits: seq<Row>, creditGroups: seq<Group>, debitGroups: seq<Group>)
    returns (diffs: seq<Diff>)
    requires GroupsOf(creditGroups, credits) && GroupsOf(debitGroups, debits)
    ensures NonNegativeRows(credits) && NonNegativeRows(debits) ==> diffs == []
    ensures diffs == [] ==> forall k :: RunningTotal(credits, k) == GroupTotal(credits, k) &&
                                        RunningTotal(debits, k) == GroupTotal(debits, k)
  {
    var js := FoldInJs(credits, debits);
    var sql := SumInSql(creditGroups, debitGroups);
    diffs := DiffMaps(js, sql);
    if NonNegativeRows(credits) && NonNegativeRows(debits) {
      FoldIsGrouped(credits, debits, creditGroups, debitGroups, js, sql);
    }
    if diffs == [] {
      forall k ensures RunningTotal(credits, k) == GroupTotal(credits, k) && RunningTotal(debits, k) == GroupTotal(debits, k) {
        assert FoldedAt(js, credits, debits, k) && ReadAt(sql, creditGroups, debitGroups, k);
        assert Get(js, k) == Get(sql, k);
        ReadGroups(creditGroups, credits, k);
        ReadGroups(debitGroups, debits, k);
      }
    }
  }

  // ---- Keys are pairs ----

  /** The amounts of one address and tick, in row order. */
  function AmountsOfPair(rows: seq<Row>, address: string, tick: string): seq<real> {
    if rows == [] then []
    else
      var r := rows[|rows| - 1];
      AmountsOfPair(rows[..|rows| - 1], address, tick) + if r.address == address && r.tick == tick then [r.amount] else []
  }

  ghost predicate NoTabs(rows: seq<Row>) { forall i :: 0 <= i < |rows| ==> '\t' !in rows[i].address }

  /** Without tabs in addresses, what is summed under a joined key is what stands under its address and tick. */
  lemma {:induction false} KeysArePairs(rows: seq<Row>, address: string, tick: string)
    requires NoTabs(rows) && '\t' !in address
    ensures AmountsOf(rows, address + "\t" + tick) == AmountsOfPair(rows, address, tick)
  {
    if rows == [] {
    } else {
      var r := rows[|rows| - 1];
      KeysArePairs(rows[..|rows| - 1], address, tick);
      if RowKey(r) == KeyOf(address, tick) { KeysDistinct(r.address, r.tick, address, tick); }
    }
  }
}
