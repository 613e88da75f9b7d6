/** The `cross_chain_calls` mirror, and how recovery's rebuild of the same table compares with it.

    The live mirror upgrades a stored call only when the delivered row is finalized and its
    reorg fence (push_generation) is not below the stored one. Recovery replays archived rows
    in batch order and knows no fence: every finalized row replaces the content.
 */
module CallMirror {
  import opened Options
  import opened Upserts
  import Replay

  /** A delivered row names the statement's columns; its status is NOT NULL. */
  ghost predicate Delivered(row: Row) {
    && row.Keys == {CallId, Phase, SnapshotBlock, Network, SourceChain, SourceActionIndex, SourceContractIndex, TargetChain,
                    TargetContractIndex, Method, ParamsJson, GasLimit, EffectiveTime, Signatures, Status, PushGeneration}
    && At(row, Status).Text?
  }

  ghost predicate Deliveries(ds: seq<Row>) {
    |ds| > 0 && forall i :: 0 <= i < |ds| ==> Delivered(ds[i])
  }

  function Mirror(ds: seq<Row>): Row
    requires |ds| > 0
  {
    var k := |ds| - 1;
    if k == 0 then ds[0] else Exec(CallGate, CALL_UPSERT, Mirror(ds[..k]), ds[k])
  }

  /** The columns the mirror and recovery both carry, keys, status and fence aside. */
  const CONTENT: set<Column> :=
    {SnapshotBlock, Network, SourceChain, SourceActionIndex, SourceContractIndex, TargetChain, TargetContractIndex,
     Method, ParamsJson, GasLimit, EffectiveTime, Signatures}

  predicate IsContent(c: Column) { c in CONTENT }

  function Content(row: Row): Row {
    map c | c in row && IsContent(c) :: row[c]
  }

  lemma CallRules()
    ensures |CALL_UPSERT| == 14 && DistinctColumns(CALL_UPSERT)
    ensures CALL_UPSERT[12] == Assign(Status, GatedConst(Text("finalized")))
    ensures CALL_UPSERT[13] == Assign(PushGeneration, Greatest)
  {
    CallUpsertColumns();
  }

  /** The statement gates each of those columns, and besides them moves the status and the fence alone. */
  lemma ContentGated(c: Column) returns (i: nat)
    requires IsContent(c)
    ensures i < |CALL_UPSERT| && CALL_UPSERT[i] == Assign(c, Gated)
  {
    i := CallPosition(c);
  }

  lemma NoPosition(c: Column)
    requires !IsContent(c) && c != Status && c != PushGeneration
    ensures CallPosition(c) == -1
  {
  }

  lemma NotAssigned(c: Column)
    requires !IsContent(c) && c != Status && c != PushGeneration
    ensures !Assigns(CALL_UPSERT, c)
  {
    CallUpsertColumns();
    NoPosition(c);
  }

  // ---- One delivery ----

  lemma StepKeys(cur: Row, inc: Row)
    requires Delivered(inc) && cur.Keys == inc.Keys
    ensures Exec(CallGate, CALL_UPSERT, cur, inc).Keys == cur.Keys
  {
    CallUpsertIsSimultaneous(cur, inc);
    CallRules();
    SimultaneousKeys(Wins(CallGate, inc, cur), CALL_UPSERT, cur, inc);
  }

  lemma StepAt(cur: Row, inc: Row, c: Column)
    requires IsContent(c)
    ensures At(Exec(CallGate, CALL_UPSERT, cur, inc), c) == if Wins(CallGate, inc, cur) then At(inc, c) else At(cur, c)
  {
    CallUpsertIsSimultaneous(cur, inc);
    CallRules();
    var i := ContentGated(c);
    SimultaneousAt(Wins(CallGate, inc, cur), CALL_UPSERT, cur, inc, i);
  }

  lemma StepStatus(cur: Row, inc: Row)
    ensures At(Exec(CallGate, CALL_UPSERT, cur, inc), Status) == if Wins(CallGate, inc, cur) then Text("finalized") else At(cur, Status)
    ensures Finalized(cur) ==> Finalized(Exec(CallGate, CALL_UPSERT, cur, inc))
  {
    CallUpsertIsSimultaneous(cur, inc);
    CallRules();
    SimultaneousAt(Wins(CallGate, inc, cur), CALL_UPSERT, cur, inc, 12);
  }

  lemma StepFence(cur: Row, inc: Row)
    ensures At(Exec(CallGate, CALL_UPSERT, cur, inc), PushGeneration) ==
            Int(Larger(Gen(cur, PushGeneration), Gen(inc, PushGeneration)))
  {
    CallUpsertIsSimultaneous(cur, inc);
    CallRules();
    SimultaneousAt(Wins(CallGate, inc, cur), CALL_UPSERT, cur, inc, 13);
  }

  lemma StepElsewhere(cur: Row, inc: Row, c: Column)
    requires !IsContent(c) && c != Status && c != PushGeneration
    ensures At(Exec(CallGate, CALL_UPSERT, cur, inc), c) == At(cur, c)
  {
    CallUpsertIsSimultaneous(cur, inc);
    NotAssigned(c);
    SimultaneousElsewhere(Wins(CallGate, inc, cur), CALL_UPSERT, cur, inc, c);
  }

  lemma StepContent(cur: Row, inc: Row)
    requires Delivered(inc) && cur.Keys == inc.Keys
    ensures Content(Exec(CallGate, CALL_UPSERT, cur, inc)) == if Wins(CallGate, inc, cur) then Content(inc) else Content(cur)
  {
    StepKeys(cur, inc);
    var r := Exec(CallGate, CALL_UPSERT, cur, inc);
    var from := if Wins(CallGate, inc, cur) then inc else cur;
    forall c | c in r && IsContent(c) ensures r[c] == from[c] {
      StepAt(cur, inc, c);
    }
    SameContentColumns(r, from);
  }

  lemma SameContentColumns(r: Row, q: Row)
    requires r.Keys == q.Keys && forall c :: c in r && IsContent(c) ==> r[c] == q[c]
    ensures Content(r) == Content(q)
  {
  }

  /** The facts of one delivery, r being the row it leaves. */
  ghost predicate Step(cur: Row, inc: Row, r: Row) {
    && Content(r) == (if Wins(CallGate, inc, cur) then Content(inc) else Content(cur))
    && (Finalized(cur) ==> Finalized(r))
    && (Wins(CallGate, inc, cur) ==> Finalized(r))
    && Gen(r, PushGeneration) == Larger(Gen(cur, PushGeneration), Gen(inc, PushGeneration))
  }

  lemma StepAll(cur: Row, inc: Row)
    requires Delivered(inc) && cur.Keys == inc.Keys
    ensures Step(cur, inc, Exec(CallGate, CALL_UPSERT, cur, inc))
  {
    StepContent(cur, inc);
    StepStatus(cur, inc);
    StepFence(cur, inc);
  }

  // ---- Every run ----

  lemma {:induction false} MirrorKeys(ds: seq<Row>)
    requires Deliveries(ds)
    ensures Mirror(ds).Keys == ds[0].Keys
  {
    var k := |ds| - 1;
    if k > 0 {
      MirrorKeys(ds[..k]);
      StepKeys(Mirror(ds[..k]), ds[k]);
    }
  }

  /** Along any run the fence never falls and a finalized row is never un-finalized. */
  lemma {:induction false} RunNeverRegresses(ds: seq<Row>, i: nat)
    requires |ds| > 0 && 0 < i <= |ds|
    ensures Gen(Mirror(ds[..i]), PushGeneration) <= Gen(Mirror(ds), PushGeneration)
    ensures Finalized(Mirror(ds[..i])) ==> Finalized(Mirror(ds))
  {
    var k := |ds| - 1;
    if i == |ds| {
      assert ds[..i] == ds;
    } else {
      var front := ds[..k];
      assert front[..i] == ds[..i];
      RunNeverRegresses(front, i);
      StepStatus(Mirror(front), ds[k]);
      StepFence(Mirror(front), ds[k]);
    }
  }

  /** A finalized delivery whose generation is not below the stored one replaces the content whole and finalizes the
      row; any other moves neither. The generation is the greater of the two, and nothing else ever moves. */
  lemma DeliveryMovesContentIff(cur: Row, inc: Row, c: Column)
    ensures var moves := At(inc, Status) == Text("finalized") && Gen(inc, PushGeneration) >= Gen(cur, PushGeneration);
            var r := Exec(CallGate, CALL_UPSERT, cur, inc);
            At(r, c) ==
            if c in CONTENT then (if moves then At(inc, c) else At(cur, c))
            else if c == Status then (if moves then Text("finalized") else At(cur, c))
            else if c == PushGeneration then
              Int(if Gen(cur, c) <= Gen(inc, c) then Gen(inc, c) else Gen(cur, c))
            else At(cur, c)
  {
    if IsContent(c) {
      StepAt(cur, inc, c);
    } else if c == Status {
      StepStatus(cur, inc);
    } else if c == PushGeneration {
      StepFence(cur, inc);
    } else {
      StepElsewhere(cur, inc, c);
    }
  }

  // ---- Recovery ----

  function EventOf(row: Row): Replay.Event<(), Row> {
    Replay.Event((), Content(row), if At(row, Status).Text? then At(row, Status).s else "", Replay.NO_ADMIT, None)
  }

  function Events(ds: seq<Row>): (es: seq<Replay.Event<(), Row>>)
    ensures |es| == |ds| && forall i :: 0 <= i < |ds| ==> es[i] == EventOf(ds[i])
  {
    if ds == [] then [] else Events(ds[..|ds| - 1]) + [EventOf(ds[|ds| - 1])]
  }

  ghost predicate AllFinalized(ds: seq<Row>) {
    forall i :: 0 <= i < |ds| ==> Finalized(ds[i])
  }

  /** The last delivery carrying the highest generation. */
  ghost predicate LastTop(ds: seq<Row>, w: nat) {
    && w < |ds|
    && (forall i :: 0 <= i < |ds| ==> Gen(ds[i], PushGeneration) <= Gen(ds[w], PushGeneration))
    && (forall i :: w < i < |ds| ==> Gen(ds[i], PushGeneration) < Gen(ds[w], PushGeneration))
  }

  lemma {:induction false} LastTopExists(ds: seq<Row>) returns (w: nat)
    requires |ds| > 0
    ensures LastTop(ds, w)
  {
    var k := |ds| - 1;
    w := k;
    if k > 0 {
      var v := LastTopExists(ds[..k]);
      if Gen(ds[k], PushGeneration) < Gen(ds[v], PushGeneration) { w := v; }
    }
  }

  lemma LastTopStep(ds: seq<Row>, v: nat, w: nat)
    requires |ds| > 1 && LastTop(ds[..|ds| - 1], v) && LastTop(ds, w)
    ensures w == if Gen(ds[|ds| - 1], PushGeneration) >= Gen(ds[v], PushGeneration) then |ds| - 1 else v
  {
    var k := |ds| - 1;
    assert ds[..k][v] == ds[v];
    if w < k { assert ds[..k][w] == ds[w]; }
  }

  ghost predicate NonDecreasing(ds: seq<Row>) {
    forall i, j :: 0 <= i < j < |ds| ==> Gen(ds[i], PushGeneration) <= Gen(ds[j], PushGeneration)
  }

  lemma LastIsTop(ds: seq<Row>)
    requires |ds| > 0 && NonDecreasing(ds)
    ensures LastTop(ds, |ds| - 1)
  {
  }

  /** On finalized rows the mirror keeps the content of the last delivery of the highest generation. */
  lemma {:induction false} MirrorKeepsTop(ds: seq<Row>, w: nat)
    requires Deliveries(ds) && AllFinalized(ds) && LastTop(ds, w)
    ensures Content(Mirror(ds)) == Content(ds[w])
    ensures Gen(Mirror(ds), PushGeneration) == Gen(ds[w], PushGeneration)
    ensures Finalized(Mirror(ds))
  {
    var k := |ds| - 1;
    if k > 0 {
      var front := ds[..k];
      var v := LastTopExists(front);
      LastTopStep(ds, v, w);
      MirrorKeepsTop(front, v);
      MirrorKeys(front);
      StepAll(Mirror(front), ds[k]);
      assert Step(Mirror(front), ds[k], Mirror(ds)) && Finalized(ds[k]);
    }
  }

  /** Over any run of finalized rows, recovery and the mirror end with the same shared columns EXACTLY
      when the last row carries the content of the last row of the highest generation. */
  lemma RecoveryParityIff(ds: seq<Row>, w: nat)
    requires Deliveries(ds) && AllFinalized(ds) && LastTop(ds, w)
    ensures var r := Replay.Fold(None, Events(ds));
            && r.Some? && r.value.status == "finalized" && Finalized(Mirror(ds))
            && (r.value.content == Content(Mirror(ds)) <==> Content(ds[|ds| - 1]) == Content(ds[w]))
  {
    var es := Events(ds);
    var k := |ds| - 1;
    MirrorKeepsTop(ds, w);
    Replay.ContentForm(None, es);
    assert Finalized(ds[k]) && Replay.LastFinal(es, k);
  }

  /** In particular they agree whenever generations never decrease along the run. */
  lemma RecoveryParity(ds: seq<Row>)
    requires Deliveries(ds) && AllFinalized(ds) && NonDecreasing(ds)
    ensures var r := Replay.Fold(None, Events(ds));
            r.Some? && r.value.content == Content(Mirror(ds))
  {
    LastIsTop(ds);
    RecoveryParityIff(ds, |ds| - 1);
  }
}
