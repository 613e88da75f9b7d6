/** What the stake-weighted completeness check forces on any archive it accepts, whoever wrote it (bin/recovery.js). */
module AcceptedWeights {
  import opened Options
  import opened Sums
  import opened StakeWeights

  // ---- One weight per source ----

  ghost predicate HasSource(rows: seq<Archived>, src: string) {
    exists i :: 0 <= i < |rows| && rows[i].source == src
  }

  /** An earlier row has the source of row j. */
  ghost predicate Repeats(rows: seq<Archived>, j: nat)
    requires j < |rows|
  {
    HasSource(rows[..j], rows[j].source)
  }

  lemma {:induction false} ArchivedSources(rows: seq<Archived>, src: string)
    ensures src in ArchivedMap(rows) <==> HasSource(rows, src)
  {
    if rows == [] {
    } else {
      var k := |rows| - 1;
      ArchivedSources(rows[..k], src);
      assert rows == rows[..k] + [rows[k]];
      if HasSource(rows[..k], src) {
        var i :| 0 <= i < k && rows[..k][i].source == src;
        assert rows[i].source == src;
      }
      if HasSource(rows, src) && rows[k].source != src {
        var i :| 0 <= i < |rows| && rows[i].source == src;
        assert rows[..k][i].source == src;
      }
    }
  }

  /** The archived weight of a source is that of its first row. */
  lemma {:induction false} FirstRowDecides(rows: seq<Archived>, i: nat)
    requires i < |rows| && !Repeats(rows, i)
    ensures rows[i].source in ArchivedMap(rows) && ArchivedMap(rows)[rows[i].source] == rows[i].amount
  {
    var k := |rows| - 1;
    if i == k {
      ArchivedSources(rows[..k], rows[k].source);
    } else {
      assert rows[..k][..i] == rows[..i];
      FirstRowDecides(rows[..k], i);
    }
  }

  ghost predicate RowAgrees(rows: seq<Archived>, margin: Margin, j: nat)
    requires j < |rows|
  {
    && rows[j].source in ArchivedMap(rows)
    && (Repeats(rows, j) ==> AmountsEqual(ArchivedMap(rows)[rows[j].source], rows[j].amount, margin))
  }

  lemma RowAgreesInFront(rows: seq<Archived>, margin: Margin, j: nat)
    requires j < |rows| - 1
    ensures RowAgrees(rows[..|rows| - 1], margin, j) <==> RowAgrees(rows, margin, j)
  {
    var front := rows[..|rows| - 1];
    ArchivedSources(front, rows[j].source);
    assert front[j].source == rows[j].source && front[..j] == rows[..j];
  }

  /** The first loop accepts EXACTLY when every row after a source's first has the weight of that first row. */
  lemma {:induction false} OneWeightEachIff(rows: seq<Archived>, margin: Margin)
    ensures OneWeightEach(rows, margin) <==> forall j :: 0 <= j < |rows| ==> RowAgrees(rows, margin, j)
  {
    if rows == [] {
    } else {
      var k := |rows| - 1;
      OneWeightEachIff(rows[..k], margin);
      ArchivedSources(rows[..k], rows[k].source);
      forall j | 0 <= j < k ensures RowAgrees(rows[..k], margin, j) <==> RowAgrees(rows, margin, j) {
        RowAgreesInFront(rows, margin, j);
      }
      assert (forall j :: 0 <= j < |rows| ==> RowAgrees(rows, margin, j)) <==>
             RowAgrees(rows, margin, k) && forall j :: 0 <= j < k ==> RowAgrees(rows, margin, j);
    }
  }

  // ---- What acceptance forces ----

  /** The values the check compares the archived weights with. */
  ghost predicate Compares(resolved: seq<Resolved>, restores: map<string, real>, landed: map<string, real>) {
    && landed.Keys == ResolvedMap(resolved).Keys
    && forall src :: src in landed ==> ResolvedMap(resolved)[src] + RestoreOf(restores, src) == landed[src]
  }

  function LandedMap(s: Scene): map<string, real>
    requires Legal(s.ledger, s.later, s.at)
  {
    map src | src in ResolvedMap(s.resolved) :: Landed(s, src)
  }

  function TrueMap(s: Scene): map<string, real> {
    map src | src in ResolvedMap(s.resolved) :: s.True(src)
  }

  lemma SceneCompares(s: Scene)
    requires s.Valid()
    ensures Compares(s.resolved, s.restores, LandedMap(s))
  {
    var landed := LandedMap(s);
    forall src | src in landed ensures ResolvedMap(s.resolved)[src] + RestoreOf(s.restores, src) == landed[src] {
      AsOfValue(s, src);
    }
  }

  lemma SourceRowsAgree(rows: seq<Archived>, margin: Margin, j: nat)
    requires j < |rows| && OneWeightEach(rows, margin)
    requires rows[j].source in ArchivedMap(rows) && ArchivedMap(rows)[rows[j].source].Some?
    ensures AmountsEqual(ArchivedMap(rows)[rows[j].source], rows[j].amount, margin)
  {
    OneWeightEachIff(rows, margin);
    assert RowAgrees(rows, margin, j);
    if !Repeats(rows, j) { FirstRowDecides(rows, j); }
  }

  lemma PassForces(rows: seq<Archived>, resolved: seq<Resolved>, restores: map<string, real>, landed: map<string, real>,
                   margin: Margin, src: string)
    requires Compares(resolved, restores, landed) && Passes(rows, resolved, restores, margin) && src in landed
    ensures src in ArchivedMap(rows) && AmountsEqual(Some(landed[src]), ArchivedMap(rows)[src], margin)
  {
    assert AmountsEqual(Some(ResolvedMap(resolved)[src] + RestoreOf(restores, src)), ArchivedMap(rows)[src], margin);
  }

  /** Acceptance leaves no resolved source out and pins its archived weight, on every row, to the value the check
      compares it with. */
  lemma AcceptanceForces(s: Scene, rows: seq<Archived>, margin: Margin, src: string)
    requires s.Valid() && Passes(rows, s.resolved, s.restores, margin) && src in ResolvedMap(s.resolved)
    ensures src in ArchivedMap(rows) && AmountsEqual(Some(Landed(s, src)), ArchivedMap(rows)[src], margin)
    ensures forall j :: 0 <= j < |rows| && rows[j].source == src ==>
      AmountsEqual(ArchivedMap(rows)[src], rows[j].amount, margin)
  {
    SceneCompares(s);
    PassForces(rows, s.resolved, s.restores, LandedMap(s), margin, src);
    forall j | 0 <= j < |rows| && rows[j].source == src
      ensures AmountsEqual(ArchivedMap(rows)[src], rows[j].amount, margin)
    {
      SourceRowsAgree(rows, margin, j);
    }
  }

  // ---- Archives at chosen weights ----

  /** One row per resolved row, at the given weight of its source. */
  function RowsAt(resolved: seq<Resolved>, values: map<string, real>): seq<Archived>
    requires forall i :: 0 <= i < |resolved| ==> resolved[i].source in values
  {
    if resolved == [] then []
    else
      var v := resolved[|resolved| - 1];
      RowsAt(resolved[..|resolved| - 1], values) + [Archived(v.pubkey, v.source, Some(values[v.source]))]
  }

  lemma {:induction false} ResolvedSources(resolved: seq<Resolved>, i: nat)
    requires i < |resolved|
    ensures resolved[i].source in ResolvedMap(resolved)
  {
    if i < |resolved| - 1 { ResolvedSources(resolved[..|resolved| - 1], i); }
  }

  lemma {:induction false} RowsAtMap(resolved: seq<Resolved>, values: map<string, real>, margin: Margin)
    requires forall i :: 0 <= i < |resolved| ==> resolved[i].source in values
    ensures var rows := RowsAt(resolved, values);
            && OneWeightEach(rows, margin) && ArchivedMap(rows).Keys == ResolvedMap(resolved).Keys
            && forall src :: src in ArchivedMap(rows) ==> src in values && ArchivedMap(rows)[src] == Some(values[src])
  {
    if resolved == [] {
    } else {
      var k := |resolved| - 1;
      var rows := RowsAt(resolved, values);
      RowsAtMap(resolved[..k], values, margin);
      assert rows[..|rows| - 1] == RowsAt(resolved[..k], values);
    }
  }

  lemma SourcesValued(resolved: seq<Resolved>, values: map<string, real>)
    requires ResolvedMap(resolved).Keys <= values.Keys
    ensures forall i :: 0 <= i < |resolved| ==> resolved[i].source in values
  {
    forall i | 0 <= i < |resolved| ensures resolved[i].source in values { ResolvedSources(resolved, i); }
  }

  /** Every archived weight is the given one. */
  ghost predicate ArchivesAll(rows: seq<Archived>, values: map<string, real>) {
    ArchivedMap(rows).Keys == values.Keys && forall src :: src in values ==> ArchivedMap(rows)[src] == Some(values[src])
  }

  lemma ValuesMatch(archived: map<string, Option<real>>, weights: map<string, real>, restores: map<string, real>,
                    landed: map<string, real>, values: map<string, real>, margin: Margin)
    requires archived.Keys == weights.Keys == values.Keys == landed.Keys
    requires forall src :: src in landed ==> weights[src] + RestoreOf(restores, src) == landed[src]
    requires forall src :: src in values ==> archived[src] == Some(values[src]) && Near(landed[src], values[src], margin)
    ensures WeightsMatch(archived, weights, restores, margin)
  {
  }

  /** An archive of the resolved sources, each near the value it is compared with, passes. */
  lemma NearRowsPass(resolved: seq<Resolved>, restores: map<string, real>, landed: map<string, real>,
                     values: map<string, real>, margin: Margin)
    returns (rows: seq<Archived>)
    requires Compares(resolved, restores, landed) && values.Keys == landed.Keys
    requires forall src :: src in values ==> Near(landed[src], values[src], margin)
    ensures Passes(rows, resolved, restores, margin) && ArchivesAll(rows, values)
  {
    SourcesValued(resolved, values);
    rows := RowsAt(resolved, values);
    RowsAtMap(resolved, values, margin);
    ValuesMatch(ArchivedMap(rows), ResolvedMap(resolved), restores, landed, values, margin);
  }

  // ---- When that is the weight at the block ----

  /** The greatest amount that still compares equal to x. */
  function EdgeAbove(x: real): (e: real)
    requires x >= 0.0
    ensures e > x && e - x == MATHJS(e)
  {
    Max(x / 0.999999999999, x + 0.000000000000001)
  }

  /** The least amount that still compares equal to x. */
  function EdgeBelow(x: real): real { x - MATHJS(x) }

  /** Beyond the landed value's edge on the side away from the true weight. */
  lemma EdgeIsForged(truth: real, landed: real) returns (edge: real)
    requires truth != landed && truth >= 0.0
    ensures Near(landed, edge, MATHJS) && !Near(truth, edge, MATHJS)
  {
    edge := if truth < landed then EdgeAbove(landed) else EdgeBelow(landed);
  }

  lemma {:induction false} WeightNonNegative(stakes: seq<Stake>, src: string, at: int)
    requires forall i :: 0 <= i < |stakes| ==> stakes[i].amount >= 0.0
    ensures Weight(stakes, src, at) >= 0.0
  {
    if stakes == [] {
    } else {
      WeightNonNegative(stakes[..|stakes| - 1], src, at);
    }
  }

  /** Every resolved source's archived weight compares equal to the given one. */
  ghost predicate Carries(rows: seq<Archived>, truth: map<string, real>) {
    forall src :: src in truth ==>
      src in ArchivedMap(rows) && AmountsEqual(Some(truth[src]), ArchivedMap(rows)[src], MATHJS)
  }

  /** Every accepted archive carries the weight at the block of every resolved source. */
  ghost predicate AcceptsOnlyTrue(s: Scene) {
    forall rows :: Passes(rows, s.resolved, s.restores, MATHJS) ==> Carries(rows, TrueMap(s))
  }

  /** The accepted archive with one weight at the edge. */
  lemma ForgedAccepted(resolved: seq<Resolved>, restores: map<string, real>, landed: map<string, real>,
                       truth: map<string, real>, src: string)
    returns (rows: seq<Archived>)
    requires Compares(resolved, restores, landed) && truth.Keys == landed.Keys
    requires src in truth && truth[src] != landed[src] && truth[src] >= 0.0
    ensures Passes(rows, resolved, restores, MATHJS) && !Carries(rows, truth)
  {
    var edge := EdgeIsForged(truth[src], landed[src]);
    var values := landed[src := edge];
    rows := NearRowsPass(resolved, restores, landed, values, MATHJS);
    assert ArchivedMap(rows)[src] == Some(values[src]);
  }

  /** Over plain maps: acceptance forces the given weights EXACTLY when they are the compared ones. */
  lemma CarriesIff(resolved: seq<Resolved>, restores: map<string, real>, landed: map<string, real>, truth: map<string, real>)
    requires Compares(resolved, restores, landed) && truth.Keys == landed.Keys
    requires forall src :: src in truth ==> truth[src] >= 0.0
    ensures (forall rows :: Passes(rows, resolved, restores, MATHJS) ==> Carries(rows, truth)) <==> truth == landed
  {
    if truth == landed {
      forall rows | Passes(rows, resolved, restores, MATHJS) ensures Carries(rows, truth) {
        forall src | src in truth
          ensures src in ArchivedMap(rows) && AmountsEqual(Some(truth[src]), ArchivedMap(rows)[src], MATHJS)
        {
          PassForces(rows, resolved, restores, landed, MATHJS, src);
        }
      }
    } else {
      var src :| src in truth && truth[src] != landed[src];
      var rows := ForgedAccepted(resolved, restores, landed, truth, src);
    }
  }

  lemma LandedAgainstTrue(s: Scene, src: string)
    requires s.Valid()
    ensures s.True(src) >= 0.0 && s.Cut(src) >= 0.0
    ensures Landed(s, src) == s.True(src) <==> s.armed != s.available || s.Cut(src) == 0.0
    ensures s.armed || s.available || s.Cut(src) == 0.0 <==> Landed(s, src) >= s.True(src)
  {
    WeightNonNegative(s.ledger.stakes, src, s.at);
    AsOfValue(s, src);
  }

  /** Acceptance forces the weight at the block on every resolved source EXACTLY when the later cuts are added back
      once, or nothing was cut on any resolved source. */
  lemma AcceptsOnlyTrueIff(s: Scene)
    requires s.Valid()
    ensures AcceptsOnlyTrue(s) <==>
            s.armed != s.available || forall src :: src in ResolvedMap(s.resolved) ==> s.Cut(src) == 0.0
  {
    SceneCompares(s);
    var truth, landed := TrueMap(s), LandedMap(s);
    forall src | src in truth
      ensures truth[src] >= 0.0 && (truth[src] == landed[src] <==> s.armed != s.available || s.Cut(src) == 0.0)
    {
      LandedAgainstTrue(s, src);
    }
    CarriesIff(s.resolved, s.restores, landed, truth);
  }

  /** The slashed source of `SlashedScene`: 110 is accepted for 100 with both restores, and 90 with neither. */
  lemma ForgedArchiveAccepted(both: bool)
    ensures var s, rows := SlashedScene(both), [Archived("k", "a", Some(if both then 110.0 else 90.0))];
            && s.Valid() && Passes(rows, s.resolved, s.restores, MATHJS) && s.True("a") == 100.0
            && ArchivedMap(rows) == map["a" := Some(if both then 110.0 else 90.0)]
            && !Near(s.True("a"), if both then 110.0 else 90.0, MATHJS)
  {
    var s, rows := SlashedScene(both), [Archived("k", "a", Some(if both then 110.0 else 90.0))];
    SlashedSceneValid(both);
    SlashedWeights("a");
    assert rows[..0] == [] && s.resolved[..0] == [];
    assert ArchivedMap(rows) == map["a" := Some(if both then 110.0 else 90.0)];
    assert ResolvedMap(s.resolved) == map["a" := if both then 100.0 else 90.0];
  }

  // ---- The quorum's denominator ----

  /** Every archived weight is a number, and no unresolved source subtracts from the total. */
  ghost predicate Summable(archived: map<string, Option<real>>, sources: set<string>) {
    forall src :: src in archived ==> archived[src].Some? && (src !in sources ==> archived[src].value >= 0.0)
  }

  function Amounts(archived: map<string, Option<real>>): map<string, real>
    requires forall src :: src in archived ==> archived[src].Some?
  {
    map src | src in archived :: archived[src].value
  }

  ghost function ArchivedTotal(rows: seq<Archived>): real
    requires forall src :: src in ArchivedMap(rows) ==> ArchivedMap(rows)[src].Some?
  {
    Total(ArchivedMap(rows).Keys, Amounts(ArchivedMap(rows)))
  }

  /** Each weight less the margin. */
  function Floor(weights: map<string, real>, margin: Margin): map<string, real> {
    map src | src in weights :: weights[src] - margin(weights[src])
  }

  /** Over plain maps: the archived total is at least any floor below the archived weights. */
  lemma TotalAbove(archived: map<string, real>, floor: map<string, real>)
    requires floor.Keys <= archived.Keys && forall src :: src in floor ==> floor[src] <= archived[src]
    requires forall src :: src in archived && src !in floor ==> archived[src] >= 0.0
    ensures Total(archived.Keys, archived) >= Total(floor.Keys, floor)
  {
    var others := archived.Keys - floor.Keys;
    TotalDominates(floor.Keys, floor, archived);
    TotalDisjoint(floor.Keys, others, archived);
    TotalNonNegative(others, archived);
    assert floor.Keys + others == archived.Keys;
  }

  lemma NearBelow(a: real, b: real, margin: Margin)
    requires Near(a, b, margin) && margin(a) >= 0.0
    ensures b >= a - margin(a)
  {
  }

  lemma FloorBelow(archived: map<string, Option<real>>, landed: map<string, real>, margin: Margin)
    requires Summable(archived, landed.Keys)
    requires forall src :: src in landed ==>
      margin(landed[src]) >= 0.0 && src in archived && AmountsEqual(Some(landed[src]), archived[src], margin)
    ensures Total(archived.Keys, Amounts(archived)) >= Total(landed.Keys, Floor(landed, margin))
  {
    var floor := Floor(landed, margin);
    forall src | src in floor ensures src in archived && floor[src] <= archived[src].value {
      NearBelow(landed[src], archived[src].value, margin);
    }
    TotalAbove(Amounts(archived), floor);
    assert Amounts(archived).Keys == archived.Keys && floor.Keys == landed.Keys;
  }

  lemma PassTotal(rows: seq<Archived>, resolved: seq<Resolved>, restores: map<string, real>, landed: map<string, real>,
                  margin: Margin)
    requires Compares(resolved, restores, landed) && Passes(rows, resolved, restores, margin)
    requires Summable(ArchivedMap(rows), landed.Keys) && forall src :: src in landed ==> margin(landed[src]) >= 0.0
    ensures ArchivedTotal(rows) >= Total(landed.Keys, Floor(landed, margin))
  {
    forall src | src in landed
      ensures src in ArchivedMap(rows) && AmountsEqual(Some(landed[src]), ArchivedMap(rows)[src], margin)
    {
      PassForces(rows, resolved, restores, landed, margin, src);
    }
    FloorBelow(ArchivedMap(rows), landed, margin);
  }

  /** The archived total is at least the total of the values the check compares with, up to the margins. */
  lemma DenominatorHolds(s: Scene, rows: seq<Archived>, margin: Margin)
    requires s.Valid() && Passes(rows, s.resolved, s.restores, margin)
    requires Summable(ArchivedMap(rows), ResolvedMap(s.resolved).Keys)
    requires forall src :: src in ResolvedMap(s.resolved) ==> margin(Landed(s, src)) >= 0.0
    ensures ArchivedTotal(rows) >= Total(LandedMap(s).Keys, Floor(LandedMap(s), margin))
  {
    SceneCompares(s);
    PassTotal(rows, s.resolved, s.restores, LandedMap(s), margin);
  }

  /** A greater amount has a greater edge. */
  lemma EdgeBelowGrows(x: real, y: real)
    ensures x <= y <==> EdgeBelow(x) <= EdgeBelow(y)
  {
  }

  /** The archived total, if it is one, is at least the given weights' total, up to the tolerance. */
  ghost predicate TotalKept(rows: seq<Archived>, truth: map<string, real>) {
    Summable(ArchivedMap(rows), truth.Keys) ==> ArchivedTotal(rows) >= Total(truth.Keys, Floor(truth, MATHJS))
  }

  lemma FloorsOrdered(v: map<string, real>, w: map<string, real>)
    requires v.Keys == w.Keys && forall src :: src in v ==> v[src] <= w[src]
    ensures Total(v.Keys, Floor(v, MATHJS)) <= Total(w.Keys, Floor(w, MATHJS))
    ensures v != w ==> Total(v.Keys, Floor(v, MATHJS)) < Total(w.Keys, Floor(w, MATHJS))
  {
    forall src | src in v ensures Floor(v, MATHJS)[src] <= Floor(w, MATHJS)[src] {
      EdgeBelowGrows(v[src], w[src]);
    }
    TotalDominates(v.Keys, Floor(v, MATHJS), Floor(w, MATHJS));
    if v != w {
      var src :| src in v && v[src] != w[src];
      EdgeBelowGrows(w[src], v[src]);
      TotalLess(v.Keys, Floor(v, MATHJS), Floor(w, MATHJS), src);
    }
  }

  /** The archive of all compared values at their lower edges is accepted and totals as little as any. */
  lemma LeastAccepted(resolved: seq<Resolved>, restores: map<string, real>, landed: map<string, real>)
    returns (rows: seq<Archived>)
    requires Compares(resolved, restores, landed)
    ensures Passes(rows, resolved, restores, MATHJS) && Summable(ArchivedMap(rows), landed.Keys)
    ensures ArchivedTotal(rows) == Total(landed.Keys, Floor(landed, MATHJS))
  {
    var values := Floor(landed, MATHJS);
    rows := NearRowsPass(resolved, restores, landed, values, MATHJS);
    assert Amounts(ArchivedMap(rows)) == values;
  }

  /** The archived total is at least the resolved sources' total at the block, up to the tolerance, for every accepted
      archive. */
  ghost predicate DenominatorSafe(s: Scene) {
    forall rows :: Passes(rows, s.resolved, s.restores, MATHJS) ==> TotalKept(rows, TrueMap(s))
  }

  /** That holds EXACTLY when the later cuts are added back at least once, or nothing was cut on any resolved source. */
  lemma DenominatorSafeIff(s: Scene)
    requires s.Valid()
    ensures DenominatorSafe(s) <==>
            s.armed || s.available || forall src :: src in ResolvedMap(s.resolved) ==> s.Cut(src) == 0.0
  {
    SceneCompares(s);
    var truth, landed := TrueMap(s), LandedMap(s);
    forall src | src in truth
      ensures s.armed || s.available || s.Cut(src) == 0.0 <==> truth[src] <= landed[src]
      ensures !s.armed && !s.available ==> landed[src] <= truth[src]
    {
      LandedAgainstTrue(s, src);
    }
    KeptIff(s.resolved, s.restores, landed, truth);
  }

  /** Over plain maps whose differences all have one sign. */
  lemma KeptIff(resolved: seq<Resolved>, restores: map<string, real>, landed: map<string, real>, truth: map<string, real>)
    requires Compares(resolved, restores, landed) && truth.Keys == landed.Keys
    requires (forall src :: src in truth ==> truth[src] <= landed[src]) ||
             forall src :: src in truth ==> landed[src] <= truth[src]
    ensures (forall rows :: Passes(rows, resolved, restores, MATHJS) ==> TotalKept(rows, truth)) <==>
            forall src :: src in truth ==> truth[src] <= landed[src]
  {
    if forall src :: src in truth ==> truth[src] <= landed[src] {
      FloorsOrdered(truth, landed);
      forall rows | Passes(rows, resolved, restores, MATHJS) ensures TotalKept(rows, truth) {
        if Summable(ArchivedMap(rows), truth.Keys) { PassTotal(rows, resolved, restores, landed, MATHJS); }
      }
    } else {
      FloorsOrdered(landed, truth);
      var rows := LeastAccepted(resolved, restores, landed);
      assert !TotalKept(rows, truth);
    }
  }

  // ---- The sources that qualified at the block ----

  /** Every accepted archive holds every keyed source that qualified at the block. */
  ghost predicate KeepsQualified(s: Scene, margin: Margin) {
    forall rows, src :: Passes(rows, s.resolved, s.restores, margin) && src in s.keyed && s.True(src) >= s.minStake ==>
      src in ArchivedMap(rows)
  }

  /** A keyed source is resolved EXACTLY when what later slashes left of its weight, or all of it to an armed resolver,
      is at least the threshold. */
  lemma ResolvedIff(s: Scene, src: string)
    requires s.Valid() && src in s.keyed
    ensures src in ResolvedMap(s.resolved) <==> (if s.armed then s.True(src) else s.True(src) - s.Cut(src)) >= s.minStake
  {
    AsOfValue(s, src);
  }

  /** That holds EXACTLY when the resolver is armed or no later slashes took such a source under the threshold. */
  lemma KeepsQualifiedIff(s: Scene, margin: Margin)
    requires s.Valid()
    ensures KeepsQualified(s, margin) <==>
            s.armed || forall src :: src in s.keyed && s.True(src) >= s.minStake ==> s.True(src) - s.Cut(src) >= s.minStake
  {
    forall src | src in s.keyed { ResolvedIff(s, src); }
    SceneCompares(s);
    var rows := NearRowsPass(s.resolved, s.restores, LandedMap(s), LandedMap(s), margin);
    assert ArchivedMap(rows).Keys == ResolvedMap(s.resolved).Keys;
  }

  /** The slashed source again, with a threshold of 95: the empty archive is accepted, though the source had 100. */
  const DROPPED_SCENE :=
    Scene(STAKED, [Slash(0, 10.0, 20)], 10, {"a"}, 95.0, [], map["a" := 10.0], false, true)

  lemma QualifiedSourceDropped()
    ensures DROPPED_SCENE.Valid() && DROPPED_SCENE.True("a") == 100.0
    ensures Passes([], DROPPED_SCENE.resolved, DROPPED_SCENE.restores, MATHJS) && "a" !in ArchivedMap([])
  {
    SlashedNow(false);
    forall src { SlashedWeights(src); }
  }
}
