/** The `oracle_prices` and `price_snapshots` mirrors: which delivery a run leaves stored.

    An oracle row is replaced by a delivery whose generation is not below the stored one; a comparison with a null
    generation is not true. A price row is replaced by every finalized delivery and by no other.
 */
module PriceMirrors {
  import opened Upserts

  /** The stored row after the deliveries, oldest first. */
  function Mirror(g: Gate, stmt: seq<Assign>, ds: seq<Row>): Row
    requires |ds| > 0
  {
    var k := |ds| - 1;
    if k == 0 then ds[0] else Exec(g, stmt, Mirror(g, stmt, ds[..k]), ds[k])
  }

  // ---- Oracle prices ----

  const ORACLE_CONTENT: set<Column> :=
    {SourceAddress, Coin, Tick, Fiat, Price, BlockTime, EffectiveAt, PushGeneration}

  lemma OracleGated(c: Column) returns (i: nat)
    requires c in ORACLE_CONTENT
    ensures i < |ORACLE_UPSERT| && ORACLE_UPSERT[i] == Assign(c, Gated)
  {
    i := OraclePosition(c);
  }

  lemma OracleElsewhere(c: Column)
    requires c !in ORACLE_CONTENT
    ensures !Assigns(ORACLE_UPSERT, c)
  {
    OracleUpsertColumns();
    assert OraclePosition(c) == -1;
  }

  /** Both generations are numbers and the second is not below the first. */
  predicate NotBelow(a: Value, b: Value) { a.Int? && b.Int? && a.n <= b.n }

  lemma OracleDelivery(cur: Row, inc: Row, c: Column)
    ensures At(Exec(OracleGate, ORACLE_UPSERT, cur, inc), c) ==
            if c in ORACLE_CONTENT && NotBelow(At(cur, PushGeneration), At(inc, PushGeneration)) then At(inc, c) else At(cur, c)
  {
    OracleUpsertIsSimultaneous(cur, inc);
    OracleUpsertColumns();
    if c in ORACLE_CONTENT {
      var i := OracleGated(c);
      SimultaneousAt(Wins(OracleGate, inc, cur), ORACLE_UPSERT, cur, inc, i);
    } else {
      OracleElsewhere(c);
      SimultaneousElsewhere(Wins(OracleGate, inc, cur), ORACLE_UPSERT, cur, inc, c);
    }
  }

  /** The delivery a run keeps: the last of the greatest generation, or the first one for good if its generation is
      null. */
  ghost predicate OracleKept(ds: seq<Row>, w: nat) {
    && w < |ds|
    && (if At(ds[0], PushGeneration).Int? then At(ds[w], PushGeneration).Int? else w == 0)
    && (At(ds[w], PushGeneration).Int? ==>
          && (forall i :: 0 <= i <= w && At(ds[i], PushGeneration).Int? ==>
                NotBelow(At(ds[i], PushGeneration), At(ds[w], PushGeneration)))
          && (forall i :: w < i < |ds| ==> !NotBelow(At(ds[w], PushGeneration), At(ds[i], PushGeneration))))
  }

  lemma OracleKeptStep(ds: seq<Row>, v: nat, w: nat)
    requires |ds| > 1 && OracleKept(ds[..|ds| - 1], v) && OracleKept(ds, w)
    ensures w == if NotBelow(At(ds[v], PushGeneration), At(ds[|ds| - 1], PushGeneration)) then |ds| - 1 else v
  {
    var k := |ds| - 1;
    assert ds[..k][v] == ds[v] && ds[..k][0] == ds[0];
    if w < k { assert ds[..k][w] == ds[w]; }
  }

  lemma {:induction false} OracleKeptExists(ds: seq<Row>) returns (w: nat)
    requires |ds| > 0
    ensures OracleKept(ds, w)
  {
    var k := |ds| - 1;
    w := k;
    if k > 0 {
      var v := OracleKeptExists(ds[..k]);
      assert ds[..k][v] == ds[v] && ds[..k][0] == ds[0];
      if !NotBelow(At(ds[v], PushGeneration), At(ds[k], PushGeneration)) { w := v; }
    }
  }

  /** After any run every content column is that of the kept delivery, and the key that of the first. */
  lemma {:induction false} OracleMirrorKeeps(ds: seq<Row>, w: nat, c: Column)
    requires |ds| > 0 && OracleKept(ds, w)
    ensures At(Mirror(OracleGate, ORACLE_UPSERT, ds), c) == if c in ORACLE_CONTENT then At(ds[w], c) else At(ds[0], c)
  {
    var k := |ds| - 1;
    if k > 0 {
      var front := ds[..k];
      var v := OracleKeptExists(front);
      OracleKeptStep(ds, v, w);
      OracleMirrorKeeps(front, v, c);
      OracleMirrorKeeps(front, v, PushGeneration);
      OracleDelivery(Mirror(OracleGate, ORACLE_UPSERT, front), ds[k], c);
    }
  }

  // ---- Price snapshots ----

  const PRICE_CONTENT: set<Column> :=
    {Price, ReferenceBlock, BlockTimestamp, ValidatorCount, ConsensusProof, PushGeneration}

  lemma PriceGated(c: Column) returns (i: nat)
    requires c in PRICE_CONTENT
    ensures i < |PRICE_UPSERT| && PRICE_UPSERT[i] == Assign(c, Gated)
  {
    i := PricePosition(c);
  }

  lemma PriceElsewhere(c: Column)
    requires c !in PRICE_CONTENT && c != Status
    ensures !Assigns(PRICE_UPSERT, c)
  {
    PriceUpsertColumns();
    assert PricePosition(c) == -1;
  }

  lemma PriceDelivery(cur: Row, inc: Row, c: Column)
    ensures At(Exec(PriceGate, PRICE_UPSERT, cur, inc), c) ==
            if (c in PRICE_CONTENT || c == Status) && At(inc, Status) == Text("finalized") then At(inc, c) else At(cur, c)
  {
    PriceUpsertIsSimultaneous(cur, inc);
    PriceUpsertColumns();
    var wins := Finalized(inc);
    if c in PRICE_CONTENT {
      var i := PriceGated(c);
      SimultaneousAt(wins, PRICE_UPSERT, cur, inc, i);
    } else if c == Status {
      SimultaneousAt(wins, PRICE_UPSERT, cur, inc, 6);
    } else {
      PriceElsewhere(c);
      SimultaneousElsewhere(wins, PRICE_UPSERT, cur, inc, c);
    }
  }

  /** The delivery a run keeps: the last finalized one, or the first if none is. */
  ghost predicate PriceKept(ds: seq<Row>, w: nat) {
    && w < |ds|
    && (At(ds[w], Status) == Text("finalized") || w == 0)
    && (forall i :: w < i < |ds| ==> At(ds[i], Status) != Text("finalized"))
  }

  lemma PriceKeptStep(ds: seq<Row>, v: nat, w: nat)
    requires |ds| > 1 && PriceKept(ds[..|ds| - 1], v) && PriceKept(ds, w)
    ensures w == if At(ds[|ds| - 1], Status) == Text("finalized") then |ds| - 1 else v
  {
    var k := |ds| - 1;
    assert ds[..k][v] == ds[v];
    if w < k { assert ds[..k][w] == ds[w]; }
  }

  /** After any run every content column and the status are those of the kept delivery, and the key that of the first. */
  lemma {:induction false} PriceMirrorKeeps(ds: seq<Row>, w: nat, c: Column)
    requires |ds| > 0 && PriceKept(ds, w)
    ensures At(Mirror(PriceGate, PRICE_UPSERT, ds), c) ==
            if c in PRICE_CONTENT || c == Status then At(ds[w], c) else At(ds[0], c)
  {
    var k := |ds| - 1;
    if k > 0 {
      var front := ds[..k];
      var v := PriceKeptExists(front);
      PriceKeptStep(ds, v, w);
      PriceMirrorKeeps(front, v, c);
      PriceDelivery(Mirror(PriceGate, PRICE_UPSERT, front), ds[k], c);
    }
  }

  lemma {:induction false} PriceKeptExists(ds: seq<Row>) returns (w: nat)
    requires |ds| > 0
    ensures PriceKept(ds, w)
  {
    var k := |ds| - 1;
    w := k;
    if k > 0 && At(ds[k], Status) != Text("finalized") { w := PriceKeptExists(ds[..k]); }
  }
}
