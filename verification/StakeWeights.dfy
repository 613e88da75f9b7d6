/** The stake-weighted completeness check on an archived validator set (bin/recovery.js).

    The archive carries, per staking source, the weight the hub saw at a block. Recovery reads
    the same block again, after later slashes have cut stake rows in place, and must neither
    reject an honest archive nor accept one that drops a source or misstates a weight. Two
    places can add the later cuts back: the resolver itself, from the height where
    slash_historical_set is armed (src/db/stakes/effective_set_sql.js), and recovery's own
    restore query, when it can run.
 */
module StakeWeights {
  import opened Options
  import opened Sums

  // ---- The chain's ledger ----

  datatype Stake = Stake(source: string, amount: real, valid: bool, activation: int, deactivation: Option<int>)

  /** A slash debit on stake row number `row` (only debits on active stake rows are modelled). */
  datatype Debit = Debit(row: nat, amount: real, block: int)

  datatype Ledger = Ledger(stakes: seq<Stake>, debits: seq<Debit>)

  predicate Active(s: Stake, at: int) {
    s.valid && s.activation <= at && (s.deactivation.None? || s.deactivation.value > at)
  }

  function Share(s: Stake, src: string, at: int): real {
    if Active(s, at) && s.source == src then s.amount else 0.0
  }

  /** The weight query: current amounts of the rows active at the block. */
  function Weight(stakes: seq<Stake>, src: string, at: int): real {
    if stakes == [] then 0.0
    else Weight(stakes[..|stakes| - 1], src, at) + Share(stakes[|stakes| - 1], src, at)
  }

  predicate Counts(stakes: seq<Stake>, d: Debit, src: string, at: int) {
    d.block > at && d.row < |stakes| && Active(stakes[d.row], at) && stakes[d.row].source == src
  }

  /** The restore query: every later debit joined to a row active at the block. */
  function Restored(stakes: seq<Stake>, debits: seq<Debit>, src: string, at: int): real {
    if debits == [] then 0.0
    else
      var k := |debits| - 1;
      Restored(stakes, debits[..k], src, at) + if Counts(stakes, debits[k], src, at) then debits[k].amount else 0.0
  }

  /** Later burns of one row, as the armed resolver joins them. */
  function Burned(debits: seq<Debit>, row: nat, at: int): real {
    if debits == [] then 0.0
    else
      var k := |debits| - 1;
      Burned(debits[..k], row, at) + if debits[k].block > at && debits[k].row == row then debits[k].amount else 0.0
  }

  /** The armed weight query: each row's amount plus its own later burns. */
  function ArmedWeight(stakes: seq<Stake>, debits: seq<Debit>, src: string, at: int): real {
    if stakes == [] then 0.0
    else
      var k := |stakes| - 1;
      ArmedWeight(stakes[..k], debits, src, at) +
      if Active(stakes[k], at) && stakes[k].source == src then stakes[k].amount + Burned(debits, k, at) else 0.0
  }

  // ---- What the chain does after the block ----

  datatype Later =
    | Slash(row: nat, cut: real, block: int)
    | Unstake(row: nat, block: int)
    | NewStake(s: Stake)

  predicate Happens(l: Ledger, e: Later, at: int) {
    match e
    case Slash(row, cut, block) => row < |l.stakes| && 0.0 < cut <= l.stakes[row].amount && block > at
    case Unstake(row, block) => row < |l.stakes| && l.stakes[row].deactivation.None? && block > at
    case NewStake(s) => s.activation > at && s.amount >= 0.0
  }

  function Step(l: Ledger, e: Later): Ledger
    requires e.NewStake? || e.row < |l.stakes|
  {
    match e
    case Slash(row, cut, block) =>
      Ledger(l.stakes[row := l.stakes[row].(amount := l.stakes[row].amount - cut)], l.debits + [Debit(row, cut, block)])
    case Unstake(row, block) => l.(stakes := l.stakes[row := l.stakes[row].(deactivation := Some(block))])
    case NewStake(s) => l.(stakes := l.stakes + [s])
  }

  /** The events can happen one after another. */
  predicate Legal(l: Ledger, es: seq<Later>, at: int)
    decreases |es|
  {
    es == [] || (Happens(l, es[0], at) && Legal(Step(l, es[0]), es[1..], at))
  }

  function After(l: Ledger, es: seq<Later>, at: int): Ledger
    requires Legal(l, es, at)
    decreases |es|
  {
    if es == [] then l else After(Step(l, es[0]), es[1..], at)
  }

  /** Stake amounts are not negative, debits point at rows and cut something. */
  ghost predicate Sound(l: Ledger) {
    && (forall i :: 0 <= i < |l.stakes| ==> l.stakes[i].amount >= 0.0)
    && (forall i :: 0 <= i < |l.debits| ==> l.debits[i].row < |l.stakes| && l.debits[i].amount > 0.0)
  }

  // ---- Conservation ----

  lemma {:induction false} WeightUpdate(stakes: seq<Stake>, i: nat, s: Stake, src: string, at: int)
    requires i < |stakes|
    ensures Weight(stakes[i := s], src, at) == Weight(stakes, src, at) - Share(stakes[i], src, at) + Share(s, src, at)
  {
    var k := |stakes| - 1;
    if i == k {
      assert stakes[i := s][..k] == stakes[..k];
    } else {
      WeightUpdate(stakes[..k], i, s, src, at);
      assert stakes[i := s][..k] == stakes[..k][i := s];
    }
  }

  /** The restore sum reads only which rows are active at the block and whose they are. */
  lemma {:induction false} RestoredSame(a: seq<Stake>, b: seq<Stake>, debits: seq<Debit>, src: string, at: int)
    requires |a| <= |b|
    requires forall i :: 0 <= i < |debits| ==> debits[i].row < |a|
    requires forall i :: 0 <= i < |a| ==> Active(a[i], at) == Active(b[i], at) && a[i].source == b[i].source
    ensures Restored(a, debits, src, at) == Restored(b, debits, src, at)
  {
    if debits == [] {
    } else {
      RestoredSame(a, b, debits[..|debits| - 1], src, at);
    }
  }

  lemma StepConserves(l: Ledger, e: Later, src: string, at: int)
    requires Sound(l) && Happens(l, e, at)
    ensures Sound(Step(l, e))
    ensures var n := Step(l, e);
            Weight(n.stakes, src, at) + Restored(n.stakes, n.debits, src, at) ==
            Weight(l.stakes, src, at) + Restored(l.stakes, l.debits, src, at)
  {
    var n := Step(l, e);
    match e {
      case Slash(row, cut, block) => SlashConserves(l, row, cut, block, src, at);
      case Unstake(row, block) =>
        WeightUpdate(l.stakes, row, n.stakes[row], src, at);
        RestoredSame(l.stakes, n.stakes, l.debits, src, at);
      case NewStake(s) =>
        assert n.stakes[..|l.stakes|] == l.stakes;
        RestoredSame(l.stakes, n.stakes, l.debits, src, at);
    }
  }

  lemma SlashConserves(l: Ledger, row: nat, cut: real, block: int, src: string, at: int)
    requires Sound(l) && Happens(l, Slash(row, cut, block), at)
    ensures var n := Step(l, Slash(row, cut, block));
            Weight(n.stakes, src, at) + Restored(n.stakes, n.debits, src, at) ==
            Weight(l.stakes, src, at) + Restored(l.stakes, l.debits, src, at)
  {
    var n := Step(l, Slash(row, cut, block));
    WeightUpdate(l.stakes, row, n.stakes[row], src, at);
    RestoredSame(l.stakes, n.stakes, l.debits, src, at);
    assert n.debits[..|l.debits|] == l.debits;
  }

  /** Through every later history, current weight plus later debits stays the weight at the block. */
  lemma {:induction false} HistoryConserves(l: Ledger, es: seq<Later>, at: int, src: string)
    requires Sound(l) && Legal(l, es, at)
    ensures var n := After(l, es, at);
            && Sound(n)
            && Weight(n.stakes, src, at) + Restored(n.stakes, n.debits, src, at) ==
               Weight(l.stakes, src, at) + Restored(l.stakes, l.debits, src, at)
    decreases |es|
  {
    if es == [] {
    } else {
      StepConserves(l, es[0], src, at);
      HistoryConserves(Step(l, es[0]), es[1..], at, src);
    }
  }

  lemma {:induction false} NoLaterDebits(l: Ledger, src: string, at: int)
    requires forall i :: 0 <= i < |l.debits| ==> l.debits[i].block <= at
    ensures Restored(l.stakes, l.debits, src, at) == 0.0
    decreases |l.debits|
  {
    if l.debits == [] {
    } else {
      NoLaterDebits(l.(debits := l.debits[..|l.debits| - 1]), src, at);
    }
  }

  lemma {:induction false} RestoredNonNegative(l: Ledger, src: string, at: int)
    requires Sound(l)
    ensures Restored(l.stakes, l.debits, src, at) >= 0.0
    decreases |l.debits|
  {
    if l.debits == [] {
    } else {
      RestoredNonNegative(l.(debits := l.debits[..|l.debits| - 1]), src, at);
    }
  }

  /** Summing burns row by row is summing debits one by one: the armed resolver restores exactly what
      recovery's own query restores. */
  lemma {:induction false} ArmedIsRestored(stakes: seq<Stake>, debits: seq<Debit>, src: string, at: int)
    requires forall i :: 0 <= i < |debits| ==> debits[i].row < |stakes|
    ensures ArmedWeight(stakes, debits, src, at) == Weight(stakes, src, at) + Restored(stakes, debits, src, at)
  {
    if debits == [] {
      ArmedNoDebits(stakes, src, at);
    } else {
      var k := |debits| - 1;
      ArmedIsRestored(stakes, debits[..k], src, at);
      ArmedOneDebit(stakes, debits, src, at);
    }
  }

  lemma {:induction false} ArmedNoDebits(stakes: seq<Stake>, src: string, at: int)
    ensures ArmedWeight(stakes, [], src, at) == Weight(stakes, src, at)
  {
    if stakes == [] {
    } else {
      ArmedNoDebits(stakes[..|stakes| - 1], src, at);
    }
  }

  lemma {:induction false} ArmedOneDebit(stakes: seq<Stake>, debits: seq<Debit>, src: string, at: int)
    requires debits != []
    ensures var d := debits[|debits| - 1];
            ArmedWeight(stakes, debits, src, at) ==
            ArmedWeight(stakes, debits[..|debits| - 1], src, at) + if Counts(stakes, d, src, at) then d.amount else 0.0
  {
    if stakes == [] {
    } else {
      ArmedOneDebit(stakes[..|stakes| - 1], debits, src, at);
    }
  }

  // ---- The check ----

  /** How far apart two decimals of this magnitude may be and still compare equal. */
  type Margin = real -> real

  function Max(a: real, b: real): real { if a < b then b else a }

  function Dist(a: real, b: real): real { if a < b then b - a else a - b }

  predicate Near(a: real, b: real, margin: Margin) {
    a == b || Dist(a, b) <= margin(Max(a, b))
  }

  /** An amount that is no decimal number equals nothing. */
  predicate AmountsEqual(a: Option<real>, b: Option<real>, margin: Margin) {
    a.Some? && b.Some? && Near(a.value, b.value, margin)
  }

  /** An archived snapshot row of the group and a row the resolver reports. */
  datatype Archived = Archived(pubkey: string, source: string, amount: Option<real>)
  datatype Resolved = Resolved(pubkey: string, source: string, weight: real)

  /** The archived weight per source, the first row of a source deciding. */
  function ArchivedMap(rows: seq<Archived>): map<string, Option<real>> {
    if rows == [] then map[]
    else
      var r, m := rows[|rows| - 1], ArchivedMap(rows[..|rows| - 1]);
      if r.source in m then m else m[r.source := r.amount]
  }

  /** The resolved weight per source, likewise. */
  function ResolvedMap(resolved: seq<Resolved>): map<string, real> {
    if resolved == [] then map[]
    else
      var v, m := resolved[|resolved| - 1], ResolvedMap(resolved[..|resolved| - 1]);
      if v.source in m then m else m[v.source := v.weight]
  }

  function RestoreOf(restores: map<string, real>, src: string): real {
    if src in restores then restores[src] else 0.0
  }

  /** Every row of a source repeats its first row's weight. */
  predicate OneWeightEach(rows: seq<Archived>, margin: Margin) {
    rows == [] ||
    var k := |rows| - 1;
    var m := ArchivedMap(rows[..k]);
    OneWeightEach(rows[..k], margin) && (rows[k].source in m ==> AmountsEqual(m[rows[k].source], rows[k].amount, margin))
  }

  predicate NoneDropped(rows: seq<Archived>, resolved: seq<Resolved>) {
    ResolvedMap(resolved).Keys <= ArchivedMap(rows).Keys
  }

  ghost predicate WeightsMatch(archived: map<string, Option<real>>, weights: map<string, real>,
                               restores: map<string, real>, margin: Margin)
    requires weights.Keys <= archived.Keys
  {
    forall src :: src in weights ==> AmountsEqual(Some(weights[src] + RestoreOf(restores, src)), archived[src], margin)
  }

  ghost predicate Passes(rows: seq<Archived>, resolved: seq<Resolved>, restores: map<string, real>, margin: Margin) {
    && OneWeightEach(rows, margin)
    && NoneDropped(rows, resolved)
    && WeightsMatch(ArchivedMap(rows), ResolvedMap(resolved), restores, margin)
  }

  method ArchivedWeights(rows: seq<Archived>, margin: Margin) returns (ok: bool, archived: map<string, Option<real>>)
    ensures ok <==> OneWeightEach(rows, margin)
    ensures ok ==> archived == ArchivedMap(rows)
  {
    archived := map[];
    for i := 0 to |rows|
      invariant archived == ArchivedMap(rows[..i]) && OneWeightEach(rows[..i], margin)
    {
      var r := rows[i];
      assert rows[..i + 1][..i] == rows[..i];
      if r.source in archived && !AmountsEqual(archived[r.source], r.amount, margin) {
        NotOneWeight(rows, i + 1, margin);
        return false, archived;
      }
      if r.source !in archived { archived := archived[r.source := r.amount]; }
    }
    assert rows[..|rows|] == rows;
    ok := true;
  }

  lemma {:induction false} NotOneWeight(rows: seq<Archived>, i: nat, margin: Margin)
    requires i <= |rows| && !OneWeightEach(rows[..i], margin)
    ensures !OneWeightEach(rows, margin)
    decreases |rows|
  {
    if i == |rows| {
      assert rows[..i] == rows;
    } else {
      assert rows[..|rows| - 1][..i] == rows[..i];
      NotOneWeight(rows[..|rows| - 1], i, margin);
    }
  }

  method ResolvedWeights(resolved: seq<Resolved>, archived: map<string, Option<real>>) returns (ok: bool,
                         weights: map<string, real>)
    ensures ok <==> ResolvedMap(resolved).Keys <= archived.Keys
    ensures ok ==> weights == ResolvedMap(resolved)
  {
    weights := map[];
    for i := 0 to |resolved|
      invariant weights == ResolvedMap(resolved[..i]) && weights.Keys <= archived.Keys
    {
      var v := resolved[i];
      assert resolved[..i + 1][..i] == resolved[..i];
      if v.source !in weights { weights := weights[v.source := v.weight]; }
      if v.source !in archived {
        ResolvedGrows(resolved, i + 1);
        return false, weights;
      }
    }
    assert resolved[..|resolved|] == resolved;
    ok := true;
  }

  lemma {:induction false} ResolvedGrows(resolved: seq<Resolved>, i: nat)
    requires i <= |resolved|
    ensures ResolvedMap(resolved[..i]).Keys <= ResolvedMap(resolved).Keys
    decreases |resolved|
  {
    if i == |resolved| {
      assert resolved[..i] == resolved;
    } else {
      assert resolved[..|resolved| - 1][..i] == resolved[..i];
      ResolvedGrows(resolved[..|resolved| - 1], i);
    }
  }

  method CompareWeights(archived: map<string, Option<real>>, weights: map<string, real>, restores: map<string, real>,
                        margin: Margin)
    returns (ok: bool)
    requires weights.Keys <= archived.Keys
    ensures ok <==> WeightsMatch(archived, weights, restores, margin)
  {
    var left := weights.Keys;
    while left != {}
      invariant left <= weights.Keys
      invariant forall src :: src in weights && src !in left ==>
        AmountsEqual(Some(weights[src] + RestoreOf(restores, src)), archived[src], margin)
      decreases |left|
    {
      var src :| src in left;
      var asOf := weights[src] + RestoreOf(restores, src);
      if !AmountsEqual(Some(asOf), archived[src], margin) { return false; }
      left := left - {src};
    }
    ok := true;
  }

  /** The whole check: one weight per source, no resolved source dropped, every resolved source's weight
      restored to the block equal to the archived one. */
  method VerifyWeightedCompleteness(rows: seq<Archived>, resolved: seq<Resolved>, restores: map<string, real>,
                                    margin: Margin)
    returns (ok: bool)
    ensures ok <==> Passes(rows, resolved, restores, margin)
  {
    var consistent, archived := ArchivedWeights(rows, margin);
    if !consistent { return false; }
    var complete, weights := ResolvedWeights(resolved, archived);
    if !complete { return false; }
    ok := CompareWeights(archived, weights, restores, margin);
  }

  // ---- Honest archives ----

  /** The weight the hub archived: the ledger as it stood at the block. */
  function Honest(l: Ledger, src: string, at: int): real {
    Weight(l.stakes, src, at)
  }

  /** What the resolver reports for a source today. */
  function Today(n: Ledger, src: string, at: int, armed: bool): real {
    if armed then ArmedWeight(n.stakes, n.debits, src, at) else Weight(n.stakes, src, at)
  }

  /** The archive the hub wrote: the keyed sources at or above the threshold, at their weights. */
  ghost predicate HonestArchive(rows: seq<Archived>, l: Ledger, keyed: set<string>, minStake: real, at: int) {
    && (forall src :: src in ArchivedMap(rows) <==> src in keyed && Honest(l, src, at) >= minStake)
    && (forall i :: 0 <= i < |rows| ==> rows[i].amount == Some(Honest(l, rows[i].source, at)))
  }

  /** A complete resolution: the keyed sources at or above the threshold today, at today's weights. Keys,
      revocations and delegations are read as of the block, so `keyed` is the same set. */
  ghost predicate Resolution(resolved: seq<Resolved>, n: Ledger, keyed: set<string>, minStake: real, at: int,
                             armed: bool) {
    && (forall src :: src in ResolvedMap(resolved) <==> src in keyed && Today(n, src, at, armed) >= minStake)
    && (forall src :: src in ResolvedMap(resolved) ==> ResolvedMap(resolved)[src] == Today(n, src, at, armed))
  }

  /** The restore query's answer; empty when it cannot run. */
  ghost predicate Restores(restores: map<string, real>, n: Ledger, at: int, available: bool) {
    forall src :: RestoreOf(restores, src) == if available then Restored(n.stakes, n.debits, src, at) else 0.0
  }

  lemma {:induction false} HonestRowsAgree(rows: seq<Archived>, l: Ledger, at: int, margin: Margin)
    requires forall i :: 0 <= i < |rows| ==> rows[i].amount == Some(Honest(l, rows[i].source, at))
    ensures OneWeightEach(rows, margin)
    ensures forall src :: src in ArchivedMap(rows) ==> ArchivedMap(rows)[src] == Some(Honest(l, src, at))
  {
    if rows == [] {
    } else {
      HonestRowsAgree(rows[..|rows| - 1], l, at, margin);
    }
  }

  /** The later debits as they are added back: by an armed resolver, by recovery's query, by both or by neither. */
  function AddedBack(d: real, armed: bool, available: bool): real {
    (if armed then d else 0.0) + (if available then d else 0.0)
  }

  /** A sound ledger at the block, a later history, and what recovery reads after it. */
  datatype Scene = Scene(ledger: Ledger, later: seq<Later>, at: int, keyed: set<string>, minStake: real,
                         resolved: seq<Resolved>, restores: map<string, real>, armed: bool, available: bool)
  {
    ghost predicate Valid() {
      && Sound(ledger) && Legal(ledger, later, at)
      && (forall i :: 0 <= i < |ledger.debits| ==> ledger.debits[i].block <= at)
      && Resolution(resolved, Now(), keyed, minStake, at, armed)
      && Restores(restores, Now(), at, available)
    }

    function Now(): Ledger
      requires Legal(ledger, later, at)
    {
      After(ledger, later, at)
    }

    /** What later slashes took from a source's rows that were active at the block. */
    function Cut(src: string): real
      requires Legal(ledger, later, at)
    {
      Restored(Now().stakes, Now().debits, src, at)
    }

    function True(src: string): real { Honest(ledger, src, at) }
  }

  /** What the check compares with the archived weight of a source. */
  lemma AsOfValue(s: Scene, src: string)
    requires s.Valid()
    ensures s.Cut(src) >= 0.0
    ensures Today(s.Now(), src, s.at, s.armed) + RestoreOf(s.restores, src) == Landed(s, src)
    ensures Today(s.Now(), src, s.at, s.armed) <= s.True(src)
  {
    HistoryConserves(s.ledger, s.later, s.at, src);
    NoLaterDebits(s.ledger, src, s.at);
    RestoredNonNegative(s.Now(), src, s.at);
    ArmedIsRestored(s.Now().stakes, s.Now().debits, src, s.at);
  }

  /** Slashes only lower weights, so what is resolved today was archived then. */
  lemma HonestNotDropped(s: Scene, rows: seq<Archived>)
    requires s.Valid() && HonestArchive(rows, s.ledger, s.keyed, s.minStake, s.at)
    ensures NoneDropped(rows, s.resolved)
  {
    forall src | src in ResolvedMap(s.resolved) ensures src in ArchivedMap(rows) { AsOfValue(s, src); }
  }

  /** The value the check compares with the archived weight of a source. */
  function Landed(s: Scene, src: string): real
    requires Legal(s.ledger, s.later, s.at)
  {
    s.True(src) - s.Cut(src) + AddedBack(s.Cut(src), s.armed, s.available)
  }

  /** That value lands near the true weight. */
  ghost predicate LandsNear(s: Scene, margin: Margin, src: string)
    requires Legal(s.ledger, s.later, s.at)
  {
    Near(Landed(s, src), s.True(src), margin)
  }

  /** Over plain maps: the comparison is that of the landed values with the true ones. */
  lemma MatchIff(archived: map<string, Option<real>>, weights: map<string, real>, restores: map<string, real>,
                 margin: Margin,
                 truth: map<string, real>, landed: map<string, real>)
    requires truth.Keys == landed.Keys == weights.Keys <= archived.Keys
    requires forall src :: src in weights ==> archived[src] == Some(truth[src]) && weights[src] + RestoreOf(restores, src) == landed[src]
    ensures WeightsMatch(archived, weights, restores, margin) <==> forall src :: src in weights ==> Near(landed[src], truth[src], margin)
  {
  }

  /** An honest archive is accepted EXACTLY when, for every source still resolved, the later debits added back
      as often as they are land near the true weight. */
  lemma HonestAcceptedIff(s: Scene, rows: seq<Archived>, margin: Margin)
    requires s.Valid() && HonestArchive(rows, s.ledger, s.keyed, s.minStake, s.at)
    ensures Passes(rows, s.resolved, s.restores, margin) <==> forall src :: src in ResolvedMap(s.resolved) ==> LandsNear(s, margin, src)
  {
    HonestRowsAgree(rows, s.ledger, s.at, margin);
    HonestNotDropped(s, rows);
    var weights := ResolvedMap(s.resolved);
    var truth, landed := Values(s, weights.Keys);
    forall src | src in weights ensures weights[src] + RestoreOf(s.restores, src) == landed[src] {
      AsOfValue(s, src);
    }
    MatchIff(ArchivedMap(rows), weights, s.restores, margin, truth, landed);
  }

  lemma Values(s: Scene, sources: set<string>) returns (truth: map<string, real>, landed: map<string, real>)
    requires Legal(s.ledger, s.later, s.at)
    ensures truth.Keys == landed.Keys == sources
    ensures forall src :: src in sources ==>
      truth[src] == s.True(src) && landed[src] == Landed(s, src)
    ensures forall src, margin :: src in sources ==> (LandsNear(s, margin, src) <==> Near(landed[src], truth[src], margin))
  {
    truth := map src | src in sources :: s.True(src);
    landed := map src | src in sources :: Landed(s, src);
  }

  /** The default tolerances of the bignumber comparison: 1e-12 relative, 1e-15 absolute. */
  const MATHJS: Margin := m => Max(0.000000000001 * m, 0.000000000000001)

  /** The larger of the two compared values of a source whose later cuts are added back twice or not at all. */
  function Compared(s: Scene, src: string): real
    requires Legal(s.ledger, s.later, s.at)
  {
    if s.armed then s.True(src) + s.Cut(src) else s.True(src)
  }

  /** With the shipped comparison: restored exactly once, or every resolved source's cuts within the tolerance. An
      armed resolver together with a working restore query counts each later slash twice, and an unavailable
      query on an unarmed one not at all; any cut beyond the tolerance then refuses an honest archive. */
  lemma HonestAcceptedShippedIff(s: Scene, rows: seq<Archived>)
    requires s.Valid() && HonestArchive(rows, s.ledger, s.keyed, s.minStake, s.at)
    ensures Passes(rows, s.resolved, s.restores, MATHJS) <==>
            s.armed != s.available ||
            forall src :: src in ResolvedMap(s.resolved) ==> s.Cut(src) <= MATHJS(Compared(s, src))
  {
    HonestAcceptedIff(s, rows, MATHJS);
    forall src
      ensures LandsNear(s, MATHJS, src) <==> s.armed != s.available || s.Cut(src) <= MATHJS(Compared(s, src))
    {
      AsOfValue(s, src);
    }
  }

  // One source with a stake of 100, slashed by 10 at block 20 and read at block 10.
  const STAKED := Ledger([Stake("a", 100.0, true, 0, None)], [])
  const SLASHED := Ledger([Stake("a", 90.0, true, 0, None)], [Debit(0, 10.0, 20)])

  /** Read with both restores, or with neither. */
  function SlashedScene(both: bool): Scene {
    Scene(STAKED, [Slash(0, 10.0, 20)], 10, {"a"}, 1.0, [Resolved("k", "a", if both then 100.0 else 90.0)],
          if both then map["a" := 10.0] else map[], both, both)
  }

  lemma SlashedNow(both: bool)
    ensures Legal(STAKED, [Slash(0, 10.0, 20)], 10) && SlashedScene(both).Now() == SLASHED
  {
    var e := Slash(0, 10.0, 20);
    assert Happens(STAKED, e, 10) && Step(STAKED, e) == SLASHED;
    assert [e][1..] == [];
    assert Legal(SLASHED, [], 10) && After(SLASHED, [], 10) == SLASHED;
  }

  lemma SlashedWeights(src: string)
    ensures Weight(STAKED.stakes, src, 10) == if src == "a" then 100.0 else 0.0
    ensures Weight(SLASHED.stakes, src, 10) == if src == "a" then 90.0 else 0.0
    ensures Restored(SLASHED.stakes, SLASHED.debits, src, 10) == if src == "a" then 10.0 else 0.0
    ensures ArmedWeight(SLASHED.stakes, SLASHED.debits, src, 10) == if src == "a" then 100.0 else 0.0
  {
    assert STAKED.stakes[..0] == [] && SLASHED.stakes[..0] == [] && SLASHED.debits[..0] == [];
    ArmedIsRestored(SLASHED.stakes, SLASHED.debits, src, 10);
  }

  const HONEST_ROWS := [Archived("k", "a", Some(100.0))]

  lemma SlashedSceneValid(both: bool)
    ensures SlashedScene(both).Valid() && ResolvedMap(SlashedScene(both).resolved).Keys == {"a"}
  {
    var s := SlashedScene(both);
    SlashedNow(both);
    forall src { SlashedWeights(src); }
    assert s.resolved[..0] == [];
    assert ResolvedMap(s.resolved) == map["a" := if both then 100.0 else 90.0];
  }

  lemma HonestRowsHonest(both: bool)
    ensures var s := SlashedScene(both); HonestArchive(HONEST_ROWS, s.ledger, s.keyed, s.minStake, s.at)
  {
    forall src { SlashedWeights(src); }
    assert HONEST_ROWS[..0] == [];
    assert ArchivedMap(HONEST_ROWS) == map["a" := Some(100.0)];
  }

  /** Either way the honest archive of that source is refused. */
  lemma HonestArchiveRefused(both: bool)
    ensures SlashedScene(both).Valid()
    ensures var s := SlashedScene(both);
            && HonestArchive(HONEST_ROWS, s.ledger, s.keyed, s.minStake, s.at)
            && !Passes(HONEST_ROWS, s.resolved, s.restores, MATHJS)
  {
    var s := SlashedScene(both);
    SlashedSceneValid(both);
    HonestRowsHonest(both);
    SlashedNow(both);
    SlashedWeights("a");
    HonestAcceptedShippedIff(s, HONEST_ROWS);
    assert "a" in ResolvedMap(s.resolved) && s.Cut("a") > MATHJS(Compared(s, "a"));
  }

  /** Either single restore is enough whatever the margin: later slashes never condemn an honest archive. */
  lemma RestoredOnceAccepts(s: Scene, rows: seq<Archived>, margin: Margin)
    requires s.Valid() && HonestArchive(rows, s.ledger, s.keyed, s.minStake, s.at) && s.armed != s.available
    ensures Passes(rows, s.resolved, s.restores, margin)
  {
    HonestAcceptedIff(s, rows, margin);
    assert forall src :: LandsNear(s, margin, src);
  }

  // ---- How exact the comparison is ----

  /** An amount kept to eight decimals, from its count of last places. */
  function Decimal(x: nat): real { x as real / 100000000.0 }

  /** Two amounts compare equal exactly when they are, or differ by at most 1e-12 of the larger. */
  lemma DecimalsNearIff(x: nat, y: nat)
    ensures Near(Decimal(x), Decimal(y), MATHJS) <==>
            x == y || 1_000_000_000_000 * (if x < y then y - x else x - y) <= if x < y then y else x
  {
    var a, b := Decimal(x), Decimal(y);
    assert Dist(a, b) == (if x < y then y - x else x - y) as real / 100000000.0;
  }

  /** An amount is mistaken for no other EXACTLY below 10000 units, but for the last place: from there on the next
      amount compares equal to it. */
  lemma ComparedExactlyIff(x: nat)
    ensures (forall y: nat :: Near(Decimal(x), Decimal(y), MATHJS) ==> x == y) <==> x + 1 < 1_000_000_000_000
  {
    forall y: nat { DecimalsNearIff(x, y); }
    if x + 1 >= 1_000_000_000_000 { assert Near(Decimal(x), Decimal(x + 1), MATHJS); }
  }

  lemma LargeAmountsBlur()
    ensures Near(20000.00000000, 20000.00000001, MATHJS)
  {
  }

  // ---- When a stake counts ----

  lemma NewStakeWeight(l: Ledger, s: Stake, src: string, b: int)
    ensures Weight(Step(l, NewStake(s)).stakes, src, b) == Weight(l.stakes, src, b) + Share(s, src, b)
  {
    assert Step(l, NewStake(s)).stakes[..|l.stakes|] == l.stakes;
  }

  /** A valid stake counts for its source from its activation block until just before its unstake takes effect. */
  lemma StakeLifetime(l: Ledger, s: Stake, block: int, src: string, b: int)
    requires s.deactivation.None?
    ensures var row := |l.stakes|;
            var staked := Step(l, NewStake(s));
            var ended := Step(staked, Unstake(row, block));
            && Weight(staked.stakes, src, b) == Weight(l.stakes, src, b) +
               (if s.valid && s.source == src && s.activation <= b then s.amount else 0.0)
            && Weight(ended.stakes, src, b) == Weight(l.stakes, src, b) +
               (if s.valid && s.source == src && s.activation <= b < block then s.amount else 0.0)
  {
    var staked := Step(l, NewStake(s));
    var ended := Step(staked, Unstake(|l.stakes|, block));
    NewStakeWeight(l, s, src, b);
    WeightUpdate(staked.stakes, |l.stakes|, ended.stakes[|l.stakes|], src, b);
  }
}
