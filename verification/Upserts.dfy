/** The in-place mirror upserts: what `INSERT ... ON DUPLICATE KEY UPDATE` does to one stored row.

    MariaDB runs the assignments of such a statement left to right, and a later assignment
    reads the columns an earlier one has already rewritten. Most assignments share a gate
    that reads columns the same statement assigns, so the order could change the outcome.
    `Exec` is that left-to-right run; `Simultaneous` judges every assignment against the row
    as it stood before the statement, which is what the statements are meant to do.
 */
module Upserts {

  datatype Value = Null | Int(n: int) | Text(s: string)

  datatype Column =
    | MatchId | SnapshotBlock | Network
    | AChain | AActionIndex | AAmount | APayoutAddr
    | BChain | BActionIndex | BAmount | BPayoutAddr
    | EffectiveTime | Signatures | Status | AnchorTxid | AGeneration | BGeneration
    | CallId | Phase | SourceChain | SourceActionIndex | SourceContractIndex
    | TargetChain | TargetContractIndex | Method | ParamsJson | GasLimit | PushGeneration
    | CrossHops | ResultStatus | ReturnPayload | FinalizingView | AdmitBtc | AdmitLtc | AdmitDoge
    | SourceAddress | Coin | Tick | Fiat | Price | BlockTime | EffectiveAt | ActionIndex
    | ReferenceBlock | BlockTimestamp | ValidatorCount | ConsensusProof

  type Row = map<Column, Value>

  function At(row: Row, c: Column): Value {
    if c in row then row[c] else Null
  }

  /** `COALESCE(c, 0)` of a generation column. */
  function Gen(row: Row, c: Column): int {
    match At(row, c)
    case Int(n) => n
    case _ => 0
  }

  predicate Finalized(row: Row) {
    At(row, Status) == Text("finalized")
  }

  /** `IF(status = 'finalized', 0, 1)`. */
  function Rank(row: Row): int {
    if Finalized(row) then 0 else 1
  }

  // ---- Statements ----

  datatype Gate = MatchGate | CallGate | OracleGate | PriceGate

  datatype Rule =
    | Gated               // c = IF(gate, VALUES(c), c)
    | GatedConst(v: Value) // c = IF(gate, v, c)
    | Greatest            // c = GREATEST(COALESCE(c, 0), COALESCE(VALUES(c), 0))
    | FirstStamp          // c = COALESCE(c, VALUES(c))

  datatype Assign = Assign(col: Column, rule: Rule)

  /** The gate's verdict; a comparison with NULL is not true. */
  predicate Wins(g: Gate, inc: Row, cur: Row) {
    match g
    case MatchGate =>
      (match (At(inc, EffectiveTime), At(cur, EffectiveTime))
       case (Int(i), Int(c)) => i > c || (i == c && Rank(inc) >= Rank(cur))
       case _ => false)
    case CallGate => Finalized(inc) && Gen(inc, PushGeneration) >= Gen(cur, PushGeneration)
    case OracleGate =>
      (match (At(inc, PushGeneration), At(cur, PushGeneration))
       case (Int(i), Int(c)) => i >= c
       case _ => false)
    case PriceGate => Finalized(inc)
  }

  function Larger(a: int, b: int): int { if a < b then b else a }

  /** The value one assignment stores, given the gate's verdict. */
  function NewValue(wins: bool, a: Assign, cur: Row, inc: Row): Value {
    match a.rule
    case Gated => if wins then At(inc, a.col) else At(cur, a.col)
    case GatedConst(v) => if wins then v else At(cur, a.col)
    case Greatest => Int(Larger(Gen(cur, a.col), Gen(inc, a.col)))
    case FirstStamp => if At(cur, a.col) == Null then At(inc, a.col) else At(cur, a.col)
  }

  /** Left to right, each assignment reading the row as rewritten so far. */
  function Exec(g: Gate, stmt: seq<Assign>, cur: Row, inc: Row): Row {
    if stmt == [] then cur
    else
      var k := |stmt| - 1;
      var s := Exec(g, stmt[..k], cur, inc);
      s[stmt[k].col := NewValue(Wins(g, inc, s), stmt[k], s, inc)]
  }

  /** Every assignment reading the original row, under one verdict. */
  function Simultaneous(wins: bool, stmt: seq<Assign>, cur: Row, inc: Row): Row {
    if stmt == [] then cur
    else
      var k := |stmt| - 1;
      Simultaneous(wins, stmt[..k], cur, inc)[stmt[k].col := NewValue(wins, stmt[k], cur, inc)]
  }

  ghost predicate DistinctColumns(stmt: seq<Assign>) {
    forall i, j :: 0 <= i < j < |stmt| ==> stmt[i].col != stmt[j].col
  }

  ghost predicate Assigns(stmt: seq<Assign>, c: Column) {
    exists i :: 0 <= i < |stmt| && stmt[i].col == c
  }

  lemma {:induction false} SimultaneousAt(wins: bool, stmt: seq<Assign>, cur: Row, inc: Row, i: nat)
    requires DistinctColumns(stmt) && i < |stmt|
    ensures stmt[i].col in Simultaneous(wins, stmt, cur, inc)
    ensures At(Simultaneous(wins, stmt, cur, inc), stmt[i].col) == NewValue(wins, stmt[i], cur, inc)
  {
    var k := |stmt| - 1;
    if i < k {
      assert stmt[..k][i] == stmt[i];
      SimultaneousAt(wins, stmt[..k], cur, inc, i);
    }
  }

  lemma {:induction false} SimultaneousElsewhere(wins: bool, stmt: seq<Assign>, cur: Row, inc: Row, c: Column)
    requires !Assigns(stmt, c)
    ensures c in Simultaneous(wins, stmt, cur, inc) <==> c in cur
    ensures At(Simultaneous(wins, stmt, cur, inc), c) == At(cur, c)
  {
    if stmt == [] {
    } else {
      var k := |stmt| - 1;
      var front := stmt[..k];
      assert stmt[k].col != c;
      forall i | 0 <= i < |front| ensures front[i].col != c { assert front[i] == stmt[i]; }
      SimultaneousElsewhere(wins, front, cur, inc, c);
    }
  }

  lemma {:induction false} SimultaneousKeys(wins: bool, stmt: seq<Assign>, cur: Row, inc: Row)
    requires forall i :: 0 <= i < |stmt| ==> stmt[i].col in cur
    ensures Simultaneous(wins, stmt, cur, inc).Keys == cur.Keys
  {
    if stmt == [] {
    } else {
      SimultaneousKeys(wins, stmt[..|stmt| - 1], cur, inc);
    }
  }

  /** Besides the verdict, an assignment reads only its own column. */
  lemma NewValueReads(wins: bool, a: Assign, s: Row, cur: Row, inc: Row)
    requires At(s, a.col) == At(cur, a.col)
    ensures NewValue(wins, a, s, inc) == NewValue(wins, a, cur, inc)
  {
  }

  lemma LastIsNew(stmt: seq<Assign>)
    requires DistinctColumns(stmt) && stmt != []
    ensures !Assigns(stmt[..|stmt| - 1], stmt[|stmt| - 1].col) && DistinctColumns(stmt[..|stmt| - 1])
  {
  }

  /** The verdict after any prefix of the statement is the verdict on the original row. */
  ghost predicate Stable(g: Gate, stmt: seq<Assign>, cur: Row, inc: Row) {
    forall k :: 0 <= k < |stmt| ==> Wins(g, inc, Simultaneous(Wins(g, inc, cur), stmt[..k], cur, inc)) == Wins(g, inc, cur)
  }

  lemma StableFront(g: Gate, stmt: seq<Assign>, cur: Row, inc: Row)
    requires stmt != [] && Stable(g, stmt, cur, inc)
    ensures Stable(g, stmt[..|stmt| - 1], cur, inc)
  {
    var front, wins := stmt[..|stmt| - 1], Wins(g, inc, cur);
    forall j | 0 <= j < |front| ensures Wins(g, inc, Simultaneous(wins, front[..j], cur, inc)) == wins {
      assert front[..j] == stmt[..j];
    }
  }

  /** One more assignment, of a column not assigned before, to a row that keeps the verdict. */
  lemma LastAssign(g: Gate, stmt: seq<Assign>, cur: Row, inc: Row, s: Row, wins: bool)
    requires stmt != [] && s == Exec(g, stmt[..|stmt| - 1], cur, inc)
    requires s == Simultaneous(wins, stmt[..|stmt| - 1], cur, inc) && Wins(g, inc, s) == wins
    requires At(s, stmt[|stmt| - 1].col) == At(cur, stmt[|stmt| - 1].col)
    ensures Exec(g, stmt, cur, inc) == Simultaneous(wins, stmt, cur, inc)
  {
    NewValueReads(wins, stmt[|stmt| - 1], s, cur, inc);
  }

  lemma {:induction false} StableIsSimultaneous(g: Gate, stmt: seq<Assign>, cur: Row, inc: Row)
    requires DistinctColumns(stmt) && Stable(g, stmt, cur, inc)
    ensures Exec(g, stmt, cur, inc) == Simultaneous(Wins(g, inc, cur), stmt, cur, inc)
  {
    if stmt == [] {
    } else {
      var k := |stmt| - 1;
      var front, wins := stmt[..k], Wins(g, inc, cur);
      var s := Simultaneous(wins, front, cur, inc);
      StableFront(g, stmt, cur, inc);
      LastIsNew(stmt);
      StableIsSimultaneous(g, front, cur, inc);
      SimultaneousElsewhere(wins, front, cur, inc, stmt[k].col);
      LastAssign(g, stmt, cur, inc, s, wins);
    }
  }

  // ---- The match statement: safe exactly when status comes before effective_time ----

  lemma MatchPrefixVerdict(stmt: seq<Assign>, s: nat, t: nat, k: nat, cur: Row, inc: Row)
    requires DistinctColumns(stmt) && s < t < |stmt| && k < |stmt|
    requires stmt[s] == Assign(Status, Gated) && stmt[t] == Assign(EffectiveTime, Gated)
    ensures Wins(MatchGate, inc, Simultaneous(Wins(MatchGate, inc, cur), stmt[..k], cur, inc)) == Wins(MatchGate, inc, cur)
  {
    var front, wins := stmt[..k], Wins(MatchGate, inc, cur);
    if s < k { SimultaneousAt(wins, front, cur, inc, s); } else { SimultaneousElsewhere(wins, front, cur, inc, Status); }
    if t < k { SimultaneousAt(wins, front, cur, inc, t); } else { SimultaneousElsewhere(wins, front, cur, inc, EffectiveTime); }
  }

  /** A newer finalized row meeting an older retracted one: the revive. */
  const RETRACTED: Row := map[EffectiveTime := Int(1), Status := Text("retracted")]
  const REVIVED: Row := map[EffectiveTime := Int(2), Status := Text("finalized")]

  lemma {:induction false} TimeFirstLosesStatus(stmt: seq<Assign>, s: nat, t: nat)
    requires DistinctColumns(stmt) && t < s < |stmt|
    requires stmt[s] == Assign(Status, Gated) && stmt[t] == Assign(EffectiveTime, Gated)
    ensures At(Exec(MatchGate, stmt, RETRACTED, REVIVED), Status) == Text("retracted")
    ensures At(Simultaneous(true, stmt, RETRACTED, REVIVED), Status) == Text("finalized")
  {
    assert !Finalized(RETRACTED) by { assert "retracted"[0] == 'r' && "finalized"[0] == 'f'; }
    SimultaneousAt(true, stmt, RETRACTED, REVIVED, s);
    ExecKeepsRetracted(stmt, s, t, |stmt|);
    assert stmt[..|stmt|] == stmt;
  }

  lemma {:induction false} ExecKeepsRetracted(stmt: seq<Assign>, s: nat, t: nat, k: nat)
    requires DistinctColumns(stmt) && t < s < |stmt| && k <= |stmt|
    requires stmt[s] == Assign(Status, Gated) && stmt[t] == Assign(EffectiveTime, Gated)
    ensures var r := Exec(MatchGate, stmt[..k], RETRACTED, REVIVED);
            && At(r, Status) == Text("retracted")
            && At(r, EffectiveTime) == Int(if t < k then 2 else 1)
  {
    assert !Finalized(RETRACTED) by { assert "retracted"[0] == 'r' && "finalized"[0] == 'f'; }
    if k > 0 {
      ExecKeepsRetracted(stmt, s, t, k - 1);
      assert stmt[..k][..k - 1] == stmt[..k - 1];
    }
  }

  /** For ANY order of the match statement's assignments, left-to-right equals simultaneous on
      every pair of rows exactly when `status` is assigned before `effective_time`. */
  lemma MatchOrderSafeIff(stmt: seq<Assign>, s: nat, t: nat)
    requires DistinctColumns(stmt) && s < |stmt| && t < |stmt|
    requires stmt[s] == Assign(Status, Gated) && stmt[t] == Assign(EffectiveTime, Gated)
    ensures (forall cur, inc :: Exec(MatchGate, stmt, cur, inc) == Simultaneous(Wins(MatchGate, inc, cur), stmt, cur, inc)) <==> s < t
  {
    if s < t {
      forall cur, inc ensures Exec(MatchGate, stmt, cur, inc) == Simultaneous(Wins(MatchGate, inc, cur), stmt, cur, inc) {
        forall k | 0 <= k < |stmt|
          ensures Wins(MatchGate, inc, Simultaneous(Wins(MatchGate, inc, cur), stmt[..k], cur, inc)) == Wins(MatchGate, inc, cur)
        {
          MatchPrefixVerdict(stmt, s, t, k, cur, inc);
        }
        StableIsSimultaneous(MatchGate, stmt, cur, inc);
      }
    } else {
      assert s != t;
      TimeFirstLosesStatus(stmt, s, t);
      assert Wins(MatchGate, REVIVED, RETRACTED);
      assert Exec(MatchGate, stmt, RETRACTED, REVIVED) != Simultaneous(true, stmt, RETRACTED, REVIVED);
    }
  }

  // ---- The generation-fenced statements: safe in every order ----

  /** What each gate needs of the statement's rules for the columns it reads. */
  ghost predicate FenceRule(g: Gate, stmt: seq<Assign>) {
    match g
    case MatchGate => false
    case CallGate => forall i :: 0 <= i < |stmt| && stmt[i].col == PushGeneration ==> stmt[i].rule == Greatest
    case OracleGate => forall i :: 0 <= i < |stmt| && stmt[i].col == PushGeneration ==> stmt[i].rule == Gated
    case PriceGate => true
  }

  /** The call, oracle and price statements give the same row in EVERY assignment order: a
      fence moved early compares equal to the incoming row only if that row had won anyway. */
  lemma FencedOrderAlwaysSafe(g: Gate, stmt: seq<Assign>, cur: Row, inc: Row)
    requires DistinctColumns(stmt) && FenceRule(g, stmt)
    ensures Exec(g, stmt, cur, inc) == Simultaneous(Wins(g, inc, cur), stmt, cur, inc)
  {
    forall k | 0 <= k < |stmt|
      ensures Wins(g, inc, Simultaneous(Wins(g, inc, cur), stmt[..k], cur, inc)) == Wins(g, inc, cur)
    {
      var front, wins := stmt[..k], Wins(g, inc, cur);
      if i: nat :| i < k && front[i].col == PushGeneration {
        SimultaneousAt(wins, front, cur, inc, i);
      } else {
        SimultaneousElsewhere(wins, front, cur, inc, PushGeneration);
      }
    }
    StableIsSimultaneous(g, stmt, cur, inc);
  }

  // ---- The shipped statements ----

  const MATCH_UPSERT: seq<Assign> := [
    Assign(SnapshotBlock, Gated), Assign(Network, Gated), Assign(AChain, Gated), Assign(AActionIndex, Gated),
    Assign(AAmount, Gated), Assign(APayoutAddr, Gated), Assign(BChain, Gated), Assign(BActionIndex, Gated),
    Assign(BAmount, Gated), Assign(BPayoutAddr, Gated), Assign(Signatures, Gated),
    Assign(Status, Gated), Assign(EffectiveTime, Gated),
    Assign(AGeneration, Greatest), Assign(BGeneration, Greatest), Assign(AnchorTxid, FirstStamp)]

  const CALL_UPSERT: seq<Assign> := [
    Assign(SnapshotBlock, Gated), Assign(Network, Gated), Assign(SourceChain, Gated), Assign(SourceActionIndex, Gated),
    Assign(SourceContractIndex, Gated), Assign(TargetChain, Gated), Assign(TargetContractIndex, Gated),
    Assign(Method, Gated), Assign(ParamsJson, Gated), Assign(GasLimit, Gated), Assign(EffectiveTime, Gated),
    Assign(Signatures, Gated), Assign(Status, GatedConst(Text("finalized"))), Assign(PushGeneration, Greatest)]

  const ORACLE_UPSERT: seq<Assign> := [
    Assign(SourceAddress, Gated), Assign(Coin, Gated), Assign(Tick, Gated), Assign(Fiat, Gated), Assign(Price, Gated),
    Assign(BlockTime, Gated), Assign(EffectiveAt, Gated), Assign(PushGeneration, Gated)]

  const PRICE_UPSERT: seq<Assign> := [
    Assign(Price, Gated), Assign(ReferenceBlock, Gated), Assign(BlockTimestamp, Gated), Assign(ValidatorCount, Gated),
    Assign(ConsensusProof, Gated), Assign(PushGeneration, Gated), Assign(Status, GatedConst(Text("finalized")))]

  /** A statement that assigns each column at its own position assigns none twice. */
  lemma DistinctByPosition(stmt: seq<Assign>, position: Column -> int)
    requires forall i :: 0 <= i < |stmt| ==> position(stmt[i].col) == i
    ensures DistinctColumns(stmt)
  {
    forall i, j | 0 <= i < j < |stmt| ensures stmt[i].col != stmt[j].col {
      assert position(stmt[i].col) == i && position(stmt[j].col) == j;
    }
  }

  lemma MatchUpsertColumns()
    ensures |MATCH_UPSERT| == 16 && DistinctColumns(MATCH_UPSERT)
    ensures MATCH_UPSERT[11] == Assign(Status, Gated) && MATCH_UPSERT[12] == Assign(EffectiveTime, Gated)
    ensures forall i :: 0 <= i < |MATCH_UPSERT| ==> MatchPosition(MATCH_UPSERT[i].col) == i
  {
    DistinctByPosition(MATCH_UPSERT, MatchPosition);
  }

  /** Where the match statement assigns a column. */
  function MatchPosition(c: Column): int {
    match c
    case SnapshotBlock => 0
    case Network => 1
    case AChain => 2
    case AActionIndex => 3
    case AAmount => 4
    case APayoutAddr => 5
    case BChain => 6
    case BActionIndex => 7
    case BAmount => 8
    case BPayoutAddr => 9
    case Signatures => 10
    case Status => 11
    case EffectiveTime => 12
    case AGeneration => 13
    case BGeneration => 14
    case AnchorTxid => 15
    case _ => -1
  }

  lemma CallUpsertColumns()
    ensures |CALL_UPSERT| == 14 && DistinctColumns(CALL_UPSERT)
    ensures forall i :: 0 <= i < |CALL_UPSERT| ==> CallPosition(CALL_UPSERT[i].col) == i
  {
    DistinctByPosition(CALL_UPSERT, CallPosition);
  }

  /** Where the call statement assigns a column. */
  function CallPosition(c: Column): int {
    match c
    case SnapshotBlock => 0
    case Network => 1
    case SourceChain => 2
    case SourceActionIndex => 3
    case SourceContractIndex => 4
    case TargetChain => 5
    case TargetContractIndex => 6
    case Method => 7
    case ParamsJson => 8
    case GasLimit => 9
    case EffectiveTime => 10
    case Signatures => 11
    case Status => 12
    case PushGeneration => 13
    case _ => -1
  }

  lemma CallFence()
    ensures FenceRule(CallGate, CALL_UPSERT)
  {
  }

  lemma OracleUpsertColumns()
    ensures |ORACLE_UPSERT| == 8 && DistinctColumns(ORACLE_UPSERT) && FenceRule(OracleGate, ORACLE_UPSERT)
    ensures forall i :: 0 <= i < |ORACLE_UPSERT| ==> OraclePosition(ORACLE_UPSERT[i].col) == i
  {
    DistinctByPosition(ORACLE_UPSERT, OraclePosition);
  }

  /** Where the oracle statement assigns a column. */
  function OraclePosition(c: Column): int {
    match c
    case SourceAddress => 0
    case Coin => 1
    case Tick => 2
    case Fiat => 3
    case Price => 4
    case BlockTime => 5
    case EffectiveAt => 6
    case PushGeneration => 7
    case _ => -1
  }

  lemma PriceUpsertColumns()
    ensures |PRICE_UPSERT| == 7 && DistinctColumns(PRICE_UPSERT)
    ensures forall i :: 0 <= i < |PRICE_UPSERT| ==> PricePosition(PRICE_UPSERT[i].col) == i
  {
    DistinctByPosition(PRICE_UPSERT, PricePosition);
  }

  /** Where the price statement assigns a column. */
  function PricePosition(c: Column): int {
    match c
    case Price => 0
    case ReferenceBlock => 1
    case BlockTimestamp => 2
    case ValidatorCount => 3
    case ConsensusProof => 4
    case PushGeneration => 5
    case Status => 6
    case _ => -1
  }

  lemma MatchUpsertIsSimultaneous(cur: Row, inc: Row)
    ensures Exec(MatchGate, MATCH_UPSERT, cur, inc) == Simultaneous(Wins(MatchGate, inc, cur), MATCH_UPSERT, cur, inc)
  {
    MatchUpsertColumns();
    MatchOrderSafeIff(MATCH_UPSERT, 11, 12);
  }

  lemma CallUpsertIsSimultaneous(cur: Row, inc: Row)
    ensures Exec(CallGate, CALL_UPSERT, cur, inc) == Simultaneous(Wins(CallGate, inc, cur), CALL_UPSERT, cur, inc)
  {
    CallUpsertColumns();
    CallFence();
    FencedOrderAlwaysSafe(CallGate, CALL_UPSERT, cur, inc);
  }

  lemma OracleUpsertIsSimultaneous(cur: Row, inc: Row)
    ensures Exec(OracleGate, ORACLE_UPSERT, cur, inc) == Simultaneous(Wins(OracleGate, inc, cur), ORACLE_UPSERT, cur, inc)
  {
    OracleUpsertColumns();
    FencedOrderAlwaysSafe(OracleGate, ORACLE_UPSERT, cur, inc);
  }

  /** A price row is replaced by a finalized delivery, whatever its generation, and by no other. */
  lemma PriceUpsertIsSimultaneous(cur: Row, inc: Row)
    ensures Exec(PriceGate, PRICE_UPSERT, cur, inc) == Simultaneous(Finalized(inc), PRICE_UPSERT, cur, inc)
  {
    PriceUpsertColumns();
    FencedOrderAlwaysSafe(PriceGate, PRICE_UPSERT, cur, inc);
  }
}
