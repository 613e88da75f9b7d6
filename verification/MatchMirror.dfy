/** Convergence of the `cross_chain_matches` mirror.

    Rows for one match_id arrive at least once and in any order. The first is inserted, each
    later one runs the match upsert. The version of a row is (effective_time, status rank),
    ordered lexicographically, with every status other than 'finalized' ranked above it.
 */
module MatchMirror {
  import opened Options
  import opened Upserts
  import Replay

  /** A delivered row names exactly the statement's columns and its effective_time is NOT NULL. */
  ghost predicate Delivered(row: Row) {
    && row.Keys == {MatchId, SnapshotBlock, Network, AChain, AActionIndex, AAmount, APayoutAddr, BChain, BActionIndex,
                    BAmount, BPayoutAddr, EffectiveTime, Signatures, Status, AnchorTxid, AGeneration, BGeneration}
    && At(row, EffectiveTime).Int?
  }

  /** A run of deliveries for one key. */
  ghost predicate Deliveries(ds: seq<Row>) {
    && |ds| > 0
    && (forall i :: 0 <= i < |ds| ==> Delivered(ds[i]))
    && (forall i, j :: 0 <= i < |ds| && 0 <= j < |ds| ==> At(ds[i], MatchId) == At(ds[j], MatchId))
  }

  /** The stored row after the deliveries, oldest first. */
  function Mirror(ds: seq<Row>): Row
    requires |ds| > 0
  {
    var k := |ds| - 1;
    if k == 0 then ds[0] else Exec(MatchGate, MATCH_UPSERT, Mirror(ds[..k]), ds[k])
  }

  /** Row a's version is at most row b's. */
  predicate NotNewer(a: Row, b: Row) {
    match (At(a, EffectiveTime), At(b, EffectiveTime))
    case (Int(x), Int(y)) => x < y || (x == y && Rank(a) <= Rank(b))
    case _ => false
  }

  /** The columns that move together with the version. */
  predicate IsContent(c: Column) {
    Assign(c, Gated) in MATCH_UPSERT
  }

  ghost predicate SameContent(a: Row, b: Row) {
    forall c | IsContent(c) :: At(a, c) == At(b, c)
  }

  /** No delivery is newer than the w-th and none after it is as new. */
  ghost predicate LastNewest(ds: seq<Row>, w: nat) {
    && w < |ds|
    && (forall i :: 0 <= i < |ds| ==> NotNewer(ds[i], ds[w]))
    && (forall i :: w < i < |ds| ==> !NotNewer(ds[w], ds[i]))
  }

  // ---- One delivery ----

  /** What one delivery stores in the column of the i-th assignment. */
  lemma StepAt(cur: Row, inc: Row, i: nat, a: Assign)
    requires i < |MATCH_UPSERT| && MATCH_UPSERT[i] == a
    ensures At(Exec(MatchGate, MATCH_UPSERT, cur, inc), a.col) == NewValue(Wins(MatchGate, inc, cur), a, cur, inc)
  {
    MatchUpsertIsSimultaneous(cur, inc);
    MatchUpsertColumns();
    SimultaneousAt(Wins(MatchGate, inc, cur), MATCH_UPSERT, cur, inc, i);
  }

  lemma StepContent(cur: Row, inc: Row, c: Column)
    requires Delivered(inc) && At(cur, EffectiveTime).Int? && IsContent(c)
    ensures At(Exec(MatchGate, MATCH_UPSERT, cur, inc), c) == if NotNewer(cur, inc) then At(inc, c) else At(cur, c)
  {
    var i :| 0 <= i < |MATCH_UPSERT| && MATCH_UPSERT[i] == Assign(c, Gated);
    StepAt(cur, inc, i, Assign(c, Gated));
  }

  lemma StepFence(cur: Row, inc: Row, c: Column)
    requires c == AGeneration || c == BGeneration
    ensures At(Exec(MatchGate, MATCH_UPSERT, cur, inc), c) == Int(Larger(Gen(cur, c), Gen(inc, c)))
  {
    var i := Assigned(Assign(c, Greatest));
    StepAt(cur, inc, i, Assign(c, Greatest));
  }

  /** Where the statement has one of its last three assignments. */
  lemma Assigned(a: Assign) returns (i: nat)
    requires a in {Assign(AGeneration, Greatest), Assign(BGeneration, Greatest), Assign(AnchorTxid, FirstStamp)}
    ensures i < |MATCH_UPSERT| && MATCH_UPSERT[i] == a
  {
    i := if a.col == AGeneration then 13 else if a.col == BGeneration then 14 else 15;
  }

  lemma StepAnchor(cur: Row, inc: Row)
    ensures At(Exec(MatchGate, MATCH_UPSERT, cur, inc), AnchorTxid) ==
            if At(cur, AnchorTxid) == Null then At(inc, AnchorTxid) else At(cur, AnchorTxid)
  {
    var i := Assigned(Assign(AnchorTxid, FirstStamp));
    StepAt(cur, inc, i, Assign(AnchorTxid, FirstStamp));
  }

  lemma StepKey(cur: Row, inc: Row)
    ensures At(Exec(MatchGate, MATCH_UPSERT, cur, inc), MatchId) == At(cur, MatchId)
  {
    MatchUpsertIsSimultaneous(cur, inc);
    SimultaneousElsewhere(Wins(MatchGate, inc, cur), MATCH_UPSERT, cur, inc, MatchId);
  }

  /** The columns a newer version replaces. */
  const CONTENT: set<Column> :=
    {SnapshotBlock, Network, AChain, AActionIndex, AAmount, APayoutAddr, BChain, BActionIndex, BAmount, BPayoutAddr,
     Signatures, Status, EffectiveTime}

  lemma ContentGated(c: Column) returns (i: nat)
    requires c in CONTENT
    ensures i < |MATCH_UPSERT| && MATCH_UPSERT[i] == Assign(c, Gated)
  {
    i := MatchPosition(c);
  }

  lemma NotAssigned(c: Column)
    requires c !in CONTENT && c !in {AGeneration, BGeneration, AnchorTxid}
    ensures !Assigns(MATCH_UPSERT, c)
  {
    MatchUpsertColumns();
    assert MatchPosition(c) == -1;
  }

  /** The delivered version replaces the stored one: a later time, or the same time unless that would turn a row that
      is not finalized back into a finalized one. */
  predicate Replaces(cur: Row, inc: Row) {
    && At(cur, EffectiveTime).Int? && At(inc, EffectiveTime).Int?
    && (|| At(cur, EffectiveTime).n < At(inc, EffectiveTime).n
        || (At(cur, EffectiveTime).n == At(inc, EffectiveTime).n &&
            (At(cur, Status) != Text("finalized") ==> At(inc, Status) != Text("finalized"))))
  }

  /** What one delivery does to every column: content moves whole or not at all, generations only grow, the first stamp
      stays, and nothing else moves. */
  lemma DeliveryMoves(cur: Row, inc: Row, c: Column)
    ensures At(Exec(MatchGate, MATCH_UPSERT, cur, inc), c) ==
            if c in CONTENT then (if Replaces(cur, inc) then At(inc, c) else At(cur, c))
            else if c == AGeneration || c == BGeneration then
              Int(if Gen(cur, c) <= Gen(inc, c) then Gen(inc, c) else Gen(cur, c))
            else if c == AnchorTxid then (if At(cur, c) == Null then At(inc, c) else At(cur, c))
            else At(cur, c)
  {
    if c in CONTENT {
      var i := ContentGated(c);
      StepAt(cur, inc, i, Assign(c, Gated));
    } else if c == AGeneration || c == BGeneration {
      StepFence(cur, inc, c);
    } else if c == AnchorTxid {
      StepAnchor(cur, inc);
    } else {
      MatchUpsertIsSimultaneous(cur, inc);
      NotAssigned(c);
      SimultaneousElsewhere(Wins(MatchGate, inc, cur), MATCH_UPSERT, cur, inc, c);
    }
  }

  lemma VersionColumns()
    ensures IsContent(EffectiveTime) && IsContent(Status)
  {
    MatchUpsertColumns();
  }

  lemma SameVersion(a: Row, b: Row)
    requires SameContent(a, b)
    ensures forall r :: NotNewer(a, r) == NotNewer(b, r) && NotNewer(r, a) == NotNewer(r, b)
  {
    VersionColumns();
  }

  // ---- Every run ----

  lemma {:induction false} NewestExists(ds: seq<Row>) returns (w: nat)
    requires Deliveries(ds)
    ensures LastNewest(ds, w)
  {
    var k := |ds| - 1;
    w := k;
    if k > 0 {
      var v := NewestExists(ds[..k]);
      if !NotNewer(ds[v], ds[k]) { w := v; }
    }
  }

  lemma NewestStep(ds: seq<Row>, v: nat, w: nat)
    requires Deliveries(ds) && |ds| > 1 && LastNewest(ds[..|ds| - 1], v) && LastNewest(ds, w)
    ensures w == if NotNewer(ds[v], ds[|ds| - 1]) then |ds| - 1 else v
  {
    var k := |ds| - 1;
    assert ds[..k][v] == ds[v];
    if w < k { assert ds[..k][w] == ds[w]; }
  }

  /** The stored content, its version included, is that of the last delivery of the newest version. */
  lemma {:induction false} MirrorKeepsNewest(ds: seq<Row>, w: nat)
    requires Deliveries(ds) && LastNewest(ds, w)
    ensures SameContent(Mirror(ds), ds[w])
  {
    var k := |ds| - 1;
    if k > 0 {
      var front := ds[..k];
      var v := NewestExists(front);
      NewestStep(ds, v, w);
      MirrorKeepsNewest(front, v);
      var cur := Mirror(front);
      SameVersion(cur, ds[v]);
      VersionColumns();
      forall c | IsContent(c) ensures At(Mirror(ds), c) == At(ds[w], c) {
        StepContent(cur, ds[k], c);
      }
    }
  }

  /** Each fence is the maximum delivered, NULL read as 0. */
  lemma {:induction false} MirrorFence(ds: seq<Row>, c: Column)
    requires |ds| > 0 && (c == AGeneration || c == BGeneration)
    ensures var r := Mirror(ds);
            && (forall i :: 0 <= i < |ds| ==> Gen(ds[i], c) <= Gen(r, c))
            && (exists i :: 0 <= i < |ds| && Gen(ds[i], c) == Gen(r, c))
            && (|ds| > 1 ==> At(r, c).Int?)
  {
    var k := |ds| - 1;
    if k > 0 {
      var front := ds[..k];
      MirrorFence(front, c);
      StepFence(Mirror(front), ds[k], c);
      var i :| 0 <= i < |front| && Gen(front[i], c) == Gen(Mirror(front), c);
      assert Gen(ds[i], c) == Gen(Mirror(ds), c) || Gen(ds[k], c) == Gen(Mirror(ds), c);
    } else {
      assert Gen(ds[0], c) == Gen(Mirror(ds), c);
    }
  }

  /** The anchor stamp is the first one delivered. */
  lemma {:induction false} MirrorAnchor(ds: seq<Row>)
    requires |ds| > 0
    ensures At(Mirror(ds), AnchorTxid) == FirstAnchor(ds)
  {
    var k := |ds| - 1;
    if k > 0 {
      MirrorAnchor(ds[..k]);
      StepAnchor(Mirror(ds[..k]), ds[k]);
    }
  }

  lemma StepShape(cur: Row, inc: Row, r: Row)
    requires Delivered(inc) && cur.Keys == inc.Keys && r == Exec(MatchGate, MATCH_UPSERT, cur, inc)
    ensures r.Keys == cur.Keys && At(r, MatchId) == At(cur, MatchId)
  {
    StepKey(cur, inc);
    StepKeys(cur, inc);
  }

  /** The key and the column set never change. */
  lemma {:induction false} MirrorKeys(ds: seq<Row>)
    requires Deliveries(ds)
    ensures At(Mirror(ds), MatchId) == At(ds[0], MatchId) && Mirror(ds).Keys == ds[0].Keys
  {
    var k := |ds| - 1;
    if k > 0 {
      var front := ds[..k];
      var cur := Mirror(front);
      MirrorKeys(front);
      StepShape(cur, ds[k], Mirror(ds));
    }
  }

  function FirstAnchor(ds: seq<Row>): Value
  {
    if ds == [] then Null
    else
      var k := |ds| - 1;
      var v := FirstAnchor(ds[..k]);
      if v == Null then At(ds[k], AnchorTxid) else v
  }

  lemma StepKeys(cur: Row, inc: Row)
    requires Delivered(inc) && cur.Keys == inc.Keys
    ensures Exec(MatchGate, MATCH_UPSERT, cur, inc).Keys == cur.Keys
  {
    MatchUpsertIsSimultaneous(cur, inc);
    MatchUpsertColumns();
    SimultaneousKeys(Wins(MatchGate, inc, cur), MATCH_UPSERT, cur, inc);
  }

  // ---- Order independence ----

  /** The newest deliveries agree on content, and no two different stamps were delivered. */
  ghost predicate Unambiguous(ds: seq<Row>) {
    && (forall a, b :: a in ds && b in ds && Newest(ds, a) && Newest(ds, b) ==> SameContent(a, b))
    && (forall a, b :: a in ds && b in ds && At(a, AnchorTxid) != Null && At(b, AnchorTxid) != Null ==>
                       At(a, AnchorTxid) == At(b, AnchorTxid))
  }

  ghost predicate Newest(ds: seq<Row>, a: Row) {
    forall r :: r in ds ==> NotNewer(r, a)
  }

  ghost predicate Reordered(ds: seq<Row>, es: seq<Row>) {
    |ds| == |es| && multiset(ds) == multiset(es)
  }

  /** The same rows, each at least once, in any order. */
  ghost predicate Redelivered(ds: seq<Row>, es: seq<Row>) {
    |es| > 0 && forall r :: r in ds <==> r in es
  }

  lemma ReorderedIsRedelivered(ds: seq<Row>, es: seq<Row>)
    requires Reordered(ds, es) && |ds| > 0
    ensures Redelivered(ds, es)
  {
    assert forall r :: r in ds <==> r in multiset(ds);
    assert forall r :: r in es <==> r in multiset(es);
  }

  lemma SameMembers(ds: seq<Row>, es: seq<Row>)
    requires Redelivered(ds, es) && Deliveries(ds)
    ensures Deliveries(es)
  {
    forall i | 0 <= i < |es| ensures es[i] in ds { assert es[i] in es; }
  }

  lemma {:induction false} FirstAnchorIs(ds: seq<Row>)
    ensures FirstAnchor(ds) == Null ==> forall r :: r in ds ==> At(r, AnchorTxid) == Null
    ensures FirstAnchor(ds) != Null ==> exists r :: r in ds && At(r, AnchorTxid) == FirstAnchor(ds)
  {
    if ds == [] {
    } else {
      var k := |ds| - 1;
      FirstAnchorIs(ds[..k]);
      assert ds == ds[..k] + [ds[k]];
    }
  }

  /** Both generations are stored as numbers. */
  ghost predicate Numbered(r: Row) { At(r, AGeneration).Int? && At(r, BGeneration).Int? }

  lemma RedeliveryConverges(ds: seq<Row>, es: seq<Row>)
    requires Deliveries(ds) && Unambiguous(ds) && Redelivered(ds, es)
    requires Numbered(Mirror(ds)) && Numbered(Mirror(es))
    ensures Mirror(es) == Mirror(ds)
  {
    SameMembers(ds, es);
    MirrorKeys(ds);
    MirrorKeys(es);
    RowsAgree(Mirror(ds), Mirror(es), ds, es);
  }

  lemma SeveralAreNumbered(ds: seq<Row>)
    requires |ds| > 1
    ensures Numbered(Mirror(ds))
  {
    MirrorFence(ds, AGeneration);
    MirrorFence(ds, BGeneration);
  }

  lemma UnambiguousConverges(ds: seq<Row>, es: seq<Row>)
    requires Deliveries(ds) && Unambiguous(ds) && Reordered(ds, es)
    ensures Mirror(es) == Mirror(ds)
  {
    ReorderedIsRedelivered(ds, es);
    if |ds| == 1 {
      assert es[0] in es;
    } else {
      SeveralAreNumbered(ds);
      SeveralAreNumbered(es);
      RedeliveryConverges(ds, es);
    }
  }

  lemma RowsAgree(r: Row, q: Row, ds: seq<Row>, es: seq<Row>)
    requires Deliveries(ds) && Unambiguous(ds) && Redelivered(ds, es) && Numbered(r) && Numbered(q)
    requires r == Mirror(ds) && q == Mirror(es) && r.Keys == ds[0].Keys && q.Keys == es[0].Keys
    ensures r == q
  {
    SameMembers(ds, es);
    assert ds[0] in es && es[0] in ds;
    forall c | c in r.Keys ensures r[c] == q[c] {
      ColumnAgrees(ds, es, c);
      assert r[c] == At(r, c) && q[c] == At(q, c);
    }
  }

  lemma ColumnAgrees(ds: seq<Row>, es: seq<Row>, c: Column)
    requires Deliveries(ds) && Unambiguous(ds) && Redelivered(ds, es) && c in ds[0].Keys
    requires Numbered(Mirror(ds)) && Numbered(Mirror(es))
    ensures At(Mirror(ds), c) == At(Mirror(es), c)
  {
    ColumnKinds(c);
    if IsContent(c) {
      ContentAgrees(ds, es);
    } else if c == AnchorTxid {
      AnchorsAgree(ds, es);
    } else if c != MatchId {
      FencesAgree(ds, es, c);
    } else {
      SameMembers(ds, es);
      MirrorKeys(ds);
      MirrorKeys(es);
      assert es[0] in ds;
    }
  }

  lemma ContentAgrees(ds: seq<Row>, es: seq<Row>)
    requires Deliveries(ds) && Unambiguous(ds) && Redelivered(ds, es)
    ensures Deliveries(es) && SameContent(Mirror(ds), Mirror(es))
  {
    SameMembers(ds, es);
    var w := NewestExists(ds);
    var v := NewestExists(es);
    MirrorKeepsNewest(ds, w);
    MirrorKeepsNewest(es, v);
    NewestOf(ds, w);
    NewestOf(es, v);
    assert ds[w] in ds && es[v] in ds && Newest(ds, es[v]);
    assert SameContent(ds[w], es[v]);
  }

  lemma NewestOf(ds: seq<Row>, w: nat)
    requires LastNewest(ds, w)
    ensures Newest(ds, ds[w])
  {
    forall r | r in ds ensures NotNewer(r, ds[w]) { var j :| 0 <= j < |ds| && ds[j] == r; }
  }

  lemma AnchorsAgree(ds: seq<Row>, es: seq<Row>)
    requires Deliveries(ds) && Unambiguous(ds) && Redelivered(ds, es)
    ensures Deliveries(es) && At(Mirror(ds), AnchorTxid) == At(Mirror(es), AnchorTxid)
  {
    SameMembers(ds, es);
    MirrorAnchor(ds);
    MirrorAnchor(es);
    FirstAnchorIs(ds);
    FirstAnchorIs(es);
  }

  lemma ColumnKinds(c: Column)
    requires c in {MatchId, SnapshotBlock, Network, AChain, AActionIndex, AAmount, APayoutAddr, BChain, BActionIndex,
                   BAmount, BPayoutAddr, EffectiveTime, Signatures, Status, AnchorTxid, AGeneration, BGeneration}
    ensures IsContent(c) || c in {MatchId, AnchorTxid, AGeneration, BGeneration}
  {
    MatchUpsertColumns();
    assert forall i :: 0 <= i < |MATCH_UPSERT| ==> MATCH_UPSERT[i] in MATCH_UPSERT;
  }

  lemma FencesAgree(ds: seq<Row>, es: seq<Row>, c: Column)
    requires Deliveries(ds) && Redelivered(ds, es) && (c == AGeneration || c == BGeneration)
    requires At(Mirror(ds), c).Int? && At(Mirror(es), c).Int?
    ensures Deliveries(es) && At(Mirror(ds), c) == At(Mirror(es), c)
  {
    SameMembers(ds, es);
    MirrorFence(ds, c);
    MirrorFence(es, c);
    var i :| 0 <= i < |ds| && Gen(ds[i], c) == Gen(Mirror(ds), c);
    var j :| 0 <= j < |es| && Gen(es[j], c) == Gen(Mirror(es), c);
    assert ds[i] in es && es[j] in ds;
  }

  // Moving one delivery to the end, or to the front, is a reordering.
  lemma MovedIsReordered(ds: seq<Row>, i: nat)
    requires i < |ds|
    ensures Reordered(ds, ds[..i] + ds[i + 1..] + [ds[i]])
    ensures Reordered(ds, [ds[i]] + ds[..i] + ds[i + 1..])
  {
    assert ds == ds[..i] + [ds[i]] + ds[i + 1..];
  }

  lemma LastOfNewestWins(ds: seq<Row>, a: Row) returns (es: seq<Row>)
    requires Deliveries(ds) && a in ds && Newest(ds, a)
    ensures Reordered(ds, es) && Deliveries(es) && SameContent(Mirror(es), a)
  {
    var i :| 0 <= i < |ds| && ds[i] == a;
    es := ds[..i] + ds[i + 1..] + [ds[i]];
    MovedIsReordered(ds, i);
    ReorderedIsRedelivered(ds, es);
    SameMembers(ds, es);
    assert es[|es| - 1] == a;
    assert LastNewest(es, |es| - 1);
    MirrorKeepsNewest(es, |es| - 1);
  }

  lemma FirstAnchorStays(ds: seq<Row>, a: Row) returns (es: seq<Row>)
    requires Deliveries(ds) && a in ds && At(a, AnchorTxid) != Null
    ensures Reordered(ds, es) && Deliveries(es) && At(Mirror(es), AnchorTxid) == At(a, AnchorTxid)
  {
    var i :| 0 <= i < |ds| && ds[i] == a;
    es := [ds[i]] + ds[..i] + ds[i + 1..];
    MovedIsReordered(ds, i);
    ReorderedIsRedelivered(ds, es);
    SameMembers(ds, es);
    MirrorAnchor(es);
    AnchorOfFirst(es);
  }

  lemma {:induction false} AnchorOfFirst(es: seq<Row>)
    requires |es| > 0 && At(es[0], AnchorTxid) != Null
    ensures FirstAnchor(es) == At(es[0], AnchorTxid)
  {
    if |es| > 1 { AnchorOfFirst(es[..|es| - 1]); }
  }

  /** The mirror ends in one row whatever the delivery order EXACTLY when the deliveries are
      unambiguous: equal newest versions carry equal content and at most one stamp occurs. */
  lemma ConvergesIff(ds: seq<Row>)
    requires Deliveries(ds)
    ensures (forall es :: Reordered(ds, es) ==> Mirror(es) == Mirror(ds)) <==> Unambiguous(ds)
  {
    if Unambiguous(ds) {
      forall es | Reordered(ds, es) ensures Mirror(es) == Mirror(ds) { UnambiguousConverges(ds, es); }
    }
    if forall es :: Reordered(ds, es) ==> Mirror(es) == Mirror(ds) {
      forall a, b | a in ds && b in ds && Newest(ds, a) && Newest(ds, b) ensures SameContent(a, b) {
        var x := LastOfNewestWins(ds, a);
        var y := LastOfNewestWins(ds, b);
      }
      forall a, b | a in ds && b in ds && At(a, AnchorTxid) != Null && At(b, AnchorTxid) != Null
        ensures At(a, AnchorTxid) == At(b, AnchorTxid)
      {
        var x := FirstAnchorStays(ds, a);
        var y := FirstAnchorStays(ds, b);
      }
    }
  }

  // ---- Delivered at least once ----

  ghost predicate TwoRows(ds: seq<Row>) { exists a, b :: a in ds && b in ds && a != b }

  /** One row delivered again: a generation that was null is stored as 0. */
  lemma SecondDeliveryStoresZero(r: Row)
    requires At(r, AGeneration) == Null
    ensures At(Mirror([r]), AGeneration) == Null && At(Mirror([r, r]), AGeneration) == Int(0)
  {
    assert [r, r][..1] == [r];
    StepFence(r, r, AGeneration);
  }

  /** Several different rows, or one whose generations are numbers, leave numbers however often they come. */
  lemma RedeliveredNumbered(ds: seq<Row>, es: seq<Row>)
    requires |ds| > 0 && Redelivered(ds, es) && (TwoRows(ds) || Numbered(ds[0]))
    ensures Numbered(Mirror(es))
  {
    if TwoRows(ds) { TwoRowsComeTwice(ds, es); }
    if |es| > 1 {
      SeveralAreNumbered(es);
    } else {
      assert ds[0] in es;
    }
  }

  lemma TwoRowsComeTwice(ds: seq<Row>, es: seq<Row>)
    requires TwoRows(ds) && Redelivered(ds, es)
    ensures |es| > 1
  {
    var a, b :| a in ds && b in ds && a != b;
    var i :| 0 <= i < |es| && es[i] == a;
    var j :| 0 <= j < |es| && es[j] == b;
    assert i != j;
  }

  /** The mirror ends in one row for every order AND every number of repetitions EXACTLY when the deliveries are
      unambiguous and either hold two different rows or one whose generations are numbers. */
  lemma RedeliveryConvergesIff(ds: seq<Row>)
    requires Deliveries(ds)
    ensures (forall es :: Redelivered(ds, es) ==> Mirror(es) == Mirror(ds)) <==>
            Unambiguous(ds) && (TwoRows(ds) || Numbered(ds[0]))
  {
    if Unambiguous(ds) && (TwoRows(ds) || Numbered(ds[0])) {
      RedeliveredNumbered(ds, ds);
      forall es | Redelivered(ds, es) ensures Mirror(es) == Mirror(ds) {
        RedeliveredNumbered(ds, es);
        RedeliveryConverges(ds, es);
      }
    }
    if forall es :: Redelivered(ds, es) ==> Mirror(es) == Mirror(ds) {
      forall es | Reordered(ds, es) ensures Mirror(es) == Mirror(ds) { ReorderedIsRedelivered(ds, es); }
      ConvergesIff(ds);
      if !TwoRows(ds) { OneRowNumbered(ds); }
    }
  }

  lemma OneRowNumbered(ds: seq<Row>)
    requires |ds| > 0 && !TwoRows(ds) && forall es :: Redelivered(ds, es) ==> Mirror(es) == Mirror(ds)
    ensures Numbered(ds[0])
  {
    var r := ds[0];
    forall q ensures q in ds <==> q == r { assert r in ds; }
    assert Redelivered(ds, [r]) && Redelivered(ds, [r, r]);
    SeveralAreNumbered([r, r]);
  }

  // ---- Recovery ----

  /** The mirror's columns that recovery moves on a finalized row. */
  function Timing(row: Row): (Value, Value) { (At(row, EffectiveTime), At(row, Signatures)) }

  type Event = Replay.Event<(), (Value, Value)>

  function TextOf(v: Value): Option<string> { if v.Text? then Some(v.s) else None }

  function EventOf(row: Row): Event {
    Replay.Event((), Timing(row), if At(row, Status).Text? then At(row, Status).s else "", Replay.NO_ADMIT,
                 TextOf(At(row, AnchorTxid)))
  }

  /** The rows as recovery reads them from the archive; every status is a text, every stamp a text or null. */
  ghost predicate Archived(ds: seq<Row>, es: seq<Event>) {
    && |es| == |ds|
    && (forall i :: 0 <= i < |ds| ==> es[i] == EventOf(ds[i]))
    && (forall i :: 0 <= i < |ds| ==> At(ds[i], Status).Text? && !At(ds[i], AnchorTxid).Int?)
  }

  /** The row whose timing recovery ends with: the last finalized one, or the first if there is none. */
  ghost predicate TimingFrom(ds: seq<Row>, f: nat) {
    && f < |ds|
    && (forall i :: f < i < |ds| ==> !Finalized(ds[i]))
    && (Finalized(ds[f]) || f == 0)
  }

  /** The stored stamp is the mirror's: a text, or nothing for null. */
  ghost predicate SameStamp(stamp: Option<string>, v: Value) {
    v == match stamp case None => Null case Some(s) => Text(s)
  }

  /** Both keep the first stamp. */
  lemma {:induction false} StampParity(ds: seq<Row>, es: seq<Event>)
    requires |ds| > 0 && Archived(ds, es)
    ensures var r := Replay.Fold(None, es); r.Some? && SameStamp(r.value.stamp, FirstAnchor(ds))
  {
    var k := |ds| - 1;
    if k == 0 {
      assert ds[..k] == [] && es[..k] == [];
    } else {
      StampParity(ds[..k], es[..k]);
    }
  }

  lemma EventsFinal(ds: seq<Row>, f: nat, es: seq<Event>)
    requires Archived(ds, es) && TimingFrom(ds, f)
    ensures if Finalized(ds[f]) then Replay.LastFinal(es, f) else f == 0 && Replay.NoneFinal(es)
  {
    assert forall i :: 0 <= i < |es| ==> (es[i].Final() <==> Finalized(ds[i]));
  }

  lemma TimingOfFold(ds: seq<Row>, f: nat, es: seq<Event>)
    requires Archived(ds, es) && TimingFrom(ds, f)
    ensures var r := Replay.Fold(None, es);
            r.Some? && Text(r.value.status) == At(ds[|ds| - 1], Status) && r.value.content == Timing(ds[f])
  {
    EventsFinal(ds, f, es);
    Replay.FreshContent(es, f);
    var k := |ds| - 1;
    assert es[k] == EventOf(ds[k]) && es[f] == EventOf(ds[f]);
  }

  lemma TimingOfContent(a: Row, b: Row)
    requires SameContent(a, b)
    ensures At(a, Status) == At(b, Status) && Timing(a) == Timing(b)
  {
    MatchUpsertColumns();
    assert MATCH_UPSERT[10] == Assign(Signatures, Gated);
    assert IsContent(Signatures) && IsContent(Status) && IsContent(EffectiveTime);
  }

  /** Recovery's row and the mirror's agree on the status and the timing. */
  ghost predicate Agree(r: Option<Replay.Stored<(), (Value, Value)>>, m: Row) {
    r.Some? && Text(r.value.status) == At(m, Status) && r.value.content == Timing(m)
  }

  /** Over any deliveries recovery and the mirror end with one stamp, and with one status and timing EXACTLY when the
      last row has the status of the last newest one and the row recovery takes its timing from has that one's timing. */
  lemma RecoveryParityIff(ds: seq<Row>, es: seq<Event>, m: Row, w: nat, f: nat)
    requires Deliveries(ds) && Archived(ds, es) && m == Mirror(ds) && LastNewest(ds, w) && TimingFrom(ds, f)
    ensures var r := Replay.Fold(None, es); r.Some? && SameStamp(r.value.stamp, At(m, AnchorTxid))
    ensures Agree(Replay.Fold(None, es), m) <==>
            At(ds[|ds| - 1], Status) == At(ds[w], Status) && Timing(ds[f]) == Timing(ds[w])
  {
    MirrorAnchor(ds);
    MirrorKeepsNewest(ds, w);
    TimingOfContent(m, ds[w]);
    StampParity(ds, es);
    TimingOfFold(ds, f, es);
  }

  lemma TimingFromLast(ds: seq<Row>, k: nat)
    requires k == |ds| - 1 && Finalized(ds[k])
    ensures TimingFrom(ds, k)
  {
  }

  /** In particular they agree whenever the last row is finalized and none is newer. */
  lemma RecoveryParity(ds: seq<Row>, es: seq<Event>, m: Row, k: nat)
    requires Deliveries(ds) && Archived(ds, es) && m == Mirror(ds)
    requires k == |ds| - 1 && Finalized(ds[k]) && LastNewest(ds, k)
    ensures Agree(Replay.Fold(None, es), m)
  {
    TimingFromLast(ds, k);
    RecoveryParityIff(ds, es, m, k, k);
  }
}
