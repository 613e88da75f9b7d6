/** The signature quorum an archived row must meet (bin/recovery.js, src/consensus/stake_weighted_quorum.js).

    Signature checking is the parameter `valid(sig, key)` for the row's canonical text, and
    lower-casing a key is the parameter `lower`; lower-casing twice is lower-casing once.
 */
module Quorum {
  import opened Options
  import opened Sets
  import opened Sums

  datatype Signature = Signature(pubkey: string, sig: string)

  /** An archived validator row; a weight that is no decimal number is None. */
  datatype Validator = Validator(pubkey: string, source: string, weight: Option<real>)

  predicate Blank(s: string) {
    forall i :: 0 <= i < |s| ==> s[i] in {' ', '\t', '\n', '\r'}
  }

  // ---- Who counts ----

  function Qualified(validators: seq<Validator>, lower: string -> string): set<string> {
    set v | v in validators :: lower(v.pubkey)
  }

  /** The entry is a valid signature by a qualified key. */
  predicate Usable(s: Signature, validators: seq<Validator>, valid: (string, string) -> bool, lower: string -> string) {
    lower(s.pubkey) in Qualified(validators, lower) && valid(s.sig, lower(s.pubkey))
  }

  /** The qualified keys with at least one valid signature. */
  function Signers(sigs: seq<Signature>, validators: seq<Validator>, valid: (string, string) -> bool,
                   lower: string -> string): set<string> {
    if sigs == [] then {}
    else
      var k := |sigs| - 1;
      Signers(sigs[..k], validators, valid, lower) +
      if Usable(sigs[k], validators, valid, lower) then {lower(sigs[k].pubkey)} else {}
  }

  lemma {:induction false} SignersAre(sigs: seq<Signature>, validators: seq<Validator>,
                                      valid: (string, string) -> bool, lower: string -> string, pk: string)
    ensures pk in Signers(sigs, validators, valid, lower) <==>
            exists s :: s in sigs && Usable(s, validators, valid, lower) && lower(s.pubkey) == pk
  {
    if sigs == [] {
    } else {
      var k := |sigs| - 1;
      SignersAre(sigs[..k], validators, valid, lower, pk);
      assert sigs == sigs[..k] + [sigs[k]];
    }
  }

  /** The number of signers a set of n qualified keys needs. */
  function Threshold(n: nat): nat {
    if n <= 1 then 1
    else
      var byFaults, byMajority := 2 * ((n - 1) / 3) + 1, (n + 2) / 2;  // ceil((n + 1) / 2)
      if byFaults < byMajority then byMajority else byFaults
  }

  /** More than half of n, and more than twice the faults n keys can stand: what the threshold is for. */
  predicate Enough(signed: nat, n: nat) { 2 * signed > n && signed > 2 * ((n - 1) / 3) }

  /** The threshold is the least number that is enough. */
  lemma ThresholdLeast(n: nat, signed: nat)
    requires n >= 1
    ensures Threshold(n) <= signed <==> Enough(signed, n)
  {
  }

  ghost predicate CountAccepts(sigs: seq<Signature>, validators: seq<Validator>, valid: (string, string) -> bool,
                               lower: string -> string) {
    validators != [] && Enough(|Signers(sigs, validators, valid, lower)|, |Qualified(validators, lower)|)
  }

  // ---- Stake-weighted threshold ----

  /** Weight per source, the first row of a source deciding. */
  function WeightMap(validators: seq<Validator>): map<string, real> {
    if validators == [] then map[]
    else
      var k := |validators| - 1;
      var m := WeightMap(validators[..k]);
      if validators[k].source in m || validators[k].weight.None? then m else m[validators[k].source := validators[k].weight.value]
  }

  /** Source per key, the last row of a key deciding. */
  function SourceMap(validators: seq<Validator>, lower: string -> string): map<string, string> {
    if validators == [] then map[]
    else
      var k := |validators| - 1;
      SourceMap(validators[..k], lower)[lower(validators[k].pubkey) := validators[k].source]
  }

  /** No blank source, and a number on the first row of every source. */
  predicate WellFormed(validators: seq<Validator>) {
    validators == [] ||
    var k := |validators| - 1;
    var v := validators[k];
    && WellFormed(validators[..k])
    && !Blank(v.source)
    && (v.source in WeightMap(validators[..k]) || v.weight.Some?)
  }

  lemma {:induction false} WellFormedPrefix(validators: seq<Validator>, i: nat)
    requires i <= |validators| && WellFormed(validators)
    ensures WellFormed(validators[..i])
    decreases |validators|
  {
    if i == |validators| {
      assert validators[..i] == validators;
    } else {
      var k := |validators| - 1;
      WellFormedPrefix(validators[..k], i);
      assert validators[..k][..i] == validators[..i];
    }
  }

  lemma {:induction false} KeysQualified(validators: seq<Validator>, lower: string -> string)
    ensures SourceMap(validators, lower).Keys == Qualified(validators, lower)
  {
    if validators == [] {
    } else {
      var k := |validators| - 1;
      KeysQualified(validators[..k], lower);
      assert validators == validators[..k] + [validators[k]];
    }
  }

  lemma {:induction false} RowsWeighed(validators: seq<Validator>, i: nat)
    requires WellFormed(validators) && i < |validators|
    ensures validators[i].source in WeightMap(validators)
  {
    var k := |validators| - 1;
    if i < k { RowsWeighed(validators[..k], i); }
  }

  /** Every key's source has a weight. */
  lemma SourcesWeighed(validators: seq<Validator>, lower: string -> string)
    requires WellFormed(validators)
    ensures forall pk :: pk in SourceMap(validators, lower) ==> SourceMap(validators, lower)[pk] in WeightMap(validators)
  {
    forall pk | pk in SourceMap(validators, lower) ensures SourceMap(validators, lower)[pk] in WeightMap(validators) {
      var i := KeyRow(validators, lower, pk);
      RowsWeighed(validators, i);
    }
  }

  lemma {:induction false} KeyRow(validators: seq<Validator>, lower: string -> string, pk: string) returns (i: nat)
    requires pk in SourceMap(validators, lower)
    ensures i < |validators| && lower(validators[i].pubkey) == pk && validators[i].source == SourceMap(validators, lower)[pk]
  {
    i := |validators| - 1;
    if pk != lower(validators[i].pubkey) { i := KeyRow(validators[..i], lower, pk); }
  }

  function SourcesOf(keys: set<string>, m: map<string, string>): set<string> {
    set pk | pk in keys && pk in m :: m[pk]
  }

  ghost predicate WeightAccepts(validators: seq<Validator>, keys: set<string>, lower: string -> string) {
    && WellFormed(validators)
    && var w := WeightMap(validators);
       && (forall s :: s in w ==> w[s] >= 0.0)
       && (SourcesWeighed(validators, lower);
           Total(w.Keys, w) > 0.0 && 3.0 * Total(SourcesOf(keys, SourceMap(validators, lower)), w) > 2.0 * Total(w.Keys, w))
  }

  // ---- The code ----

  /** Sources and weights indexed, or a refusal. */
  method IndexStakeSources(validators: seq<Validator>, lower: string -> string)
    returns (ok: bool, weightBySource: map<string, real>, pubkeyToSource: map<string, string>)
    ensures ok <==> WellFormed(validators)
    ensures ok ==> weightBySource == WeightMap(validators) && pubkeyToSource == SourceMap(validators, lower)
  {
    ok, weightBySource, pubkeyToSource := true, map[], map[];
    for i := 0 to |validators|
      invariant WellFormed(validators[..i])
      invariant weightBySource == WeightMap(validators[..i]) && pubkeyToSource == SourceMap(validators[..i], lower)
    {
      var v := validators[i];
      ghost var next := validators[..i + 1];
      assert next[..i] == validators[..i];
      if Blank(v.source) || (v.source !in weightBySource && v.weight.None?) {
        ok := false;
        if WellFormed(validators) { WellFormedPrefix(validators, i + 1); }
        return;
      }
      pubkeyToSource := pubkeyToSource[lower(v.pubkey) := v.source];
      if v.source !in weightBySource { weightBySource := weightBySource[v.source := v.weight.value]; }
    }
    assert validators[..|validators|] == validators;
  }

  /** The total stake, or a refusal on a negative weight or an empty total. */
  method SumStakeWeights(w: map<string, real>) returns (ok: bool, total: real)
    ensures ok <==> (forall s :: s in w ==> w[s] >= 0.0) && Total(w.Keys, w) > 0.0
    ensures ok ==> total == Total(w.Keys, w)
  {
    total := 0.0;
    var left := w.Keys;
    while left != {}
      invariant left <= w.Keys
      invariant forall s :: s in w.Keys - left ==> w[s] >= 0.0
      invariant total == Total(w.Keys - left, w)
      decreases |left|
    {
      var s :| s in left;
      if w[s] < 0.0 { return false, total; }
      TotalAdd(w.Keys - left, w, s);
      assert w.Keys - left + {s} == w.Keys - (left - {s});
      total := total + w[s];
      left := left - {s};
    }
    assert w.Keys - left == w.Keys;
    ok := total > 0.0;
  }

  lemma LowerStep(keys: seq<string>, i: nat, lower: string -> string)
    requires i < |keys|
    ensures (set p | p in keys[..i + 1] :: lower(p)) == (set p | p in keys[..i] :: lower(p)) + {lower(keys[i])}
  {
    assert keys[..i + 1] == keys[..i] + [keys[i]];
  }

  lemma SourcesStep(seen: set<string>, pk: string, m: map<string, string>)
    ensures SourcesOf(seen + {pk}, m) == SourcesOf(seen, m) + if pk in m then {m[pk]} else {}
    ensures pk in seen && pk in m ==> m[pk] in SourcesOf(seen, m)
  {
  }

  /** The stake behind the signers, each source counted once however many of its keys signed. */
  method SumSignerStake(w: map<string, real>, m: map<string, string>, signers: seq<string>, lower: string -> string)
    returns (tally: real)
    requires forall pk :: pk in m ==> m[pk] in w
    ensures tally == Total(SourcesOf(set pk | pk in signers :: lower(pk), m), w)
  {
    var counted: set<string>, seen: set<string> := {}, {};
    tally := 0.0;
    for i := 0 to |signers|
      invariant seen == set pk | pk in signers[..i] :: lower(pk)
      invariant counted == SourcesOf(seen, m) && tally == Total(counted, w)
    {
      var pk := lower(signers[i]);
      LowerStep(signers, i, lower);
      SourcesStep(seen, pk, m);
      if pk !in seen && pk in m && m[pk] !in counted {
        TotalAdd(counted, w, m[pk]);
        tally := tally + w[m[pk]];
        counted := counted + {m[pk]};
      }
      seen := seen + {pk};
    }
    assert signers[..|signers|] == signers;
  }

  /** The stake rule; a snapshot the query had to truncate is refused. */
  method MeetsStakeThreshold(validators: seq<Validator>, truncated: bool, signers: seq<string>, lower: string -> string)
    returns (ok: bool)
    ensures ok <==> !truncated && WeightAccepts(validators, set pk | pk in signers :: lower(pk), lower)
  {
    if truncated { return false; }
    var fine, w, m := IndexStakeSources(validators, lower);
    if !fine { return false; }
    SourcesWeighed(validators, lower);
    var positive, total := SumStakeWeights(w);
    if !positive { return false; }
    var tally := SumSignerStake(w, m, signers, lower);
    ok := 3.0 * tally > 2.0 * total;
  }

  lemma SignersStep(sigs: seq<Signature>, i: nat, validators: seq<Validator>, valid: (string, string) -> bool,
                    lower: string -> string)
    requires i < |sigs|
    ensures Signers(sigs[..i + 1], validators, valid, lower) == Signers(sigs[..i], validators, valid, lower) +
            if Usable(sigs[i], validators, valid, lower) then {lower(sigs[i].pubkey)} else {}
  {
    assert sigs[..i + 1][..i] == sigs[..i];
  }

  /** The loop over the signatures: a key is marked seen only once a signature of it verifies, so a bad
      signature never hides a later good one. */
  method CollectSigners(sigs: seq<Signature>, validators: seq<Validator>, valid: (string, string) -> bool,
                        lower: string -> string)
    returns (validSigners: seq<string>)
    ensures forall pk :: pk in validSigners <==> pk in Signers(sigs, validators, valid, lower)
    ensures |validSigners| == |Signers(sigs, validators, valid, lower)|
  {
    var qualified := Qualified(validators, lower);
    var seen: set<string> := {};
    validSigners := [];
    for i := 0 to |sigs|
      invariant seen == Signers(sigs[..i], validators, valid, lower)
      invariant forall pk :: pk in validSigners <==> pk in seen
      invariant |validSigners| == |seen|
    {
      var pk := lower(sigs[i].pubkey);
      SignersStep(sigs, i, validators, valid, lower);
      if !(pk in seen || pk !in qualified) && valid(sigs[i].sig, pk) {
        seen := seen + {pk};
        validSigners := validSigners + [pk];
      }
    }
    assert sigs[..|sigs|] == sigs;
  }

  /** The recovery verdict on one row's signatures. */
  method QuorumVerified(sigs: seq<Signature>, validators: seq<Validator>, weighted: bool,
                        valid: (string, string) -> bool, lower: string -> string) returns (ok: bool)
    requires forall s :: lower(lower(s)) == lower(s)
    ensures !weighted ==> (ok <==> CountAccepts(sigs, validators, valid, lower))
    ensures weighted ==> (ok <==> WeightAccepts(validators, Signers(sigs, validators, valid, lower), lower))
  {
    var qualified := Qualified(validators, lower);
    if |validators| > 0 { assert lower(validators[0].pubkey) in qualified; }
    if |qualified| == 0 {
      EmptyRefuses(validators, Signers(sigs, validators, valid, lower), lower);
      return false;
    }
    var validSigners := CollectSigners(sigs, validators, valid, lower);
    if weighted {
      ok := MeetsStakeThreshold(validators, false, validSigners, lower);  // archived rows carry no mark
      SignersAreLower(sigs, validators, valid, lower);
      ImageSame(validSigners, Signers(sigs, validators, valid, lower), lower);
    } else {
      ok := |validSigners| >= Threshold(|qualified|);
      ThresholdLeast(|qualified|, |validSigners|);
    }
  }

  lemma SignersAreLower(sigs: seq<Signature>, validators: seq<Validator>, valid: (string, string) -> bool,
                        lower: string -> string)
    requires forall s :: lower(lower(s)) == lower(s)
    ensures forall pk :: pk in Signers(sigs, validators, valid, lower) ==> lower(pk) == pk
  {
    forall pk | pk in Signers(sigs, validators, valid, lower) ensures lower(pk) == pk {
      SignersAre(sigs, validators, valid, lower, pk);
      var s :| s in sigs && lower(s.pubkey) == pk;
      assert lower(lower(s.pubkey)) == lower(s.pubkey);
    }
  }

  lemma ImageSame(keys: seq<string>, signers: set<string>, lower: string -> string)
    requires forall pk :: pk in keys <==> pk in signers
    requires forall pk :: pk in signers ==> lower(pk) == pk
    ensures (set pk | pk in keys :: lower(pk)) == signers
  {
    var a := set pk | pk in keys :: lower(pk);
    forall pk ensures pk in a <==> pk in signers {
      if pk in a { var k :| k in keys && lower(k) == pk; assert k in signers; }
      if pk in signers { assert lower(pk) == pk; }
    }
  }

  lemma EmptyRefuses(validators: seq<Validator>, keys: set<string>, lower: string -> string)
    requires validators == []
    ensures !WeightAccepts(validators, keys, lower)
  {
  }

  // ---- What acceptance means ----

  /** Order, repetition and unusable entries do not matter: if every key that signed validly in one list
      also did in the other, the other list is accepted whenever the first is. */
  lemma OnlySignersMatter(a: seq<Signature>, b: seq<Signature>, validators: seq<Validator>,
                          valid: (string, string) -> bool, lower: string -> string)
    requires forall s :: s in a && Usable(s, validators, valid, lower) ==>
               exists t :: t in b && Usable(t, validators, valid, lower) && lower(t.pubkey) == lower(s.pubkey)
    ensures Signers(a, validators, valid, lower) <= Signers(b, validators, valid, lower)
    ensures CountAccepts(a, validators, valid, lower) ==> CountAccepts(b, validators, valid, lower)
    ensures WeightAccepts(validators, Signers(a, validators, valid, lower), lower) ==>
            WeightAccepts(validators, Signers(b, validators, valid, lower), lower)
  {
    var x, y := Signers(a, validators, valid, lower), Signers(b, validators, valid, lower);
    forall pk | pk in x ensures pk in y {
      SignersAre(a, validators, valid, lower, pk);
      SignersAre(b, validators, valid, lower, pk);
    }
    SubsetSize(x, y);
    if WeightAccepts(validators, x, lower) { MoreSignersAccept(validators, x, y, lower); }
  }

  lemma MoreSignersAccept(validators: seq<Validator>, a: set<string>, b: set<string>, lower: string -> string)
    requires WeightAccepts(validators, a, lower) && a <= b
    ensures WeightAccepts(validators, b, lower)
  {
    SourcesWeighed(validators, lower);
    var m, w := SourceMap(validators, lower), WeightMap(validators);
    TotalMonotone(SourcesOf(a, m), SourcesOf(b, m), w);
  }

  /** The count threshold never asks for more than the set can give with (n-1)/3 members silent. */
  lemma ThresholdReachable(n: nat)
    requires n >= 1
    ensures Threshold(n) + (n - 1) / 3 <= n
  {
  }

  lemma LargeSetsIntersect(a: set<string>, b: set<string>, q: set<string>)
    requires a <= q && b <= q && Enough(|a|, |q|) && Enough(|b|, |q|)
    ensures a * b != {}
    ensures forall f: nat :: |q| == 3 * f + 1 ==> |a * b| >= f + 1
  {
    assert |a + b| == |a| + |b| - |a * b|;
    SubsetSize(a + b, q);
    assert |a * b| >= |a| + |b| - |q|;
  }

  lemma SignersQualified(sigs: seq<Signature>, validators: seq<Validator>, valid: (string, string) -> bool,
                         lower: string -> string)
    ensures Signers(sigs, validators, valid, lower) <= Qualified(validators, lower)
  {
    forall pk | pk in Signers(sigs, validators, valid, lower) ensures pk in Qualified(validators, lower) {
      SignersAre(sigs, validators, valid, lower, pk);
    }
  }

  /** Any two signature lists accepted by count, for any two rows, share a signing key, and f + 1 of them when
      n = 3f + 1. */
  lemma CountQuorumsIntersect(a: seq<Signature>, b: seq<Signature>, validators: seq<Validator>,
                              validA: (string, string) -> bool, validB: (string, string) -> bool,
                              lower: string -> string)
    requires CountAccepts(a, validators, validA, lower) && CountAccepts(b, validators, validB, lower)
    ensures var both := Signers(a, validators, validA, lower) * Signers(b, validators, validB, lower);
            && both != {}
            && forall f: nat :: |Qualified(validators, lower)| == 3 * f + 1 ==> |both| >= f + 1
  {
    SignersQualified(a, validators, validA, lower);
    SignersQualified(b, validators, validB, lower);
    LargeSetsIntersect(Signers(a, validators, validA, lower), Signers(b, validators, validB, lower),
                       Qualified(validators, lower));
  }

  /** Any two accepting signer sets share sources holding more than a third of the stake. */
  lemma StakeQuorumsIntersect(validators: seq<Validator>, a: set<string>, b: set<string>, lower: string -> string)
    requires WeightAccepts(validators, a, lower) && WeightAccepts(validators, b, lower)
    ensures var w, m := WeightMap(validators), SourceMap(validators, lower);
            (SourcesWeighed(validators, lower);
             && 3.0 * Total(SourcesOf(a, m) * SourcesOf(b, m), w) > Total(w.Keys, w)
             && exists s :: s in SourcesOf(a, m) * SourcesOf(b, m) && w[s] > 0.0)
  {
    SourcesWeighed(validators, lower);
    var w, m := WeightMap(validators), SourceMap(validators, lower);
    var x, y := SourcesOf(a, m), SourcesOf(b, m);
    TotalOverlap(x, y, w);
    TotalMonotone(x + y, w.Keys, w);
    TotalNonNegative(x * y, w);
  }

  /** When no key serves two sources, all keys signing is enough. */
  lemma FullSigningAccepts(validators: seq<Validator>, lower: string -> string)
    requires WellFormed(validators) && (forall s :: s in WeightMap(validators) ==> WeightMap(validators)[s] >= 0.0)
    requires Total(WeightMap(validators).Keys, WeightMap(validators)) > 0.0
    requires forall u, v :: u in validators && v in validators && lower(u.pubkey) == lower(v.pubkey) ==> u.source == v.source
    ensures WeightAccepts(validators, Qualified(validators, lower), lower)
  {
    SourcesWeighed(validators, lower);
    AllSourcesSigned(validators, lower);
  }

  lemma AllSourcesSigned(validators: seq<Validator>, lower: string -> string)
    requires WellFormed(validators)
    requires forall u, v :: u in validators && v in validators && lower(u.pubkey) == lower(v.pubkey) ==> u.source == v.source
    ensures SourcesOf(Qualified(validators, lower), SourceMap(validators, lower)) == WeightMap(validators).Keys
  {
    SourcesWeighed(validators, lower);
    KeysQualified(validators, lower);
    var m, w, q := SourceMap(validators, lower), WeightMap(validators), Qualified(validators, lower);
    forall s | s in w ensures s in SourcesOf(q, m) {
      var i := WeightRow(validators, s);
      var pk := lower(validators[i].pubkey);
      assert validators[i] in validators && pk in q;
      var j := KeyRow(validators, lower, pk);
      assert validators[j] in validators && m[pk] == s;
    }
  }

  lemma {:induction false} WeightRow(validators: seq<Validator>, s: string) returns (i: nat)
    requires s in WeightMap(validators)
    ensures i < |validators| && validators[i].source == s
  {
    i := |validators| - 1;
    if s in WeightMap(validators[..i]) { i := WeightRow(validators[..i], s); }
  }

  // ---- What a well-formed snapshot is ----

  ghost predicate Seen(validators: seq<Validator>, src: string) {
    exists j :: 0 <= j < |validators| && validators[j].source == src
  }

  lemma {:induction false} WeighedIsSeen(validators: seq<Validator>, src: string)
    requires WellFormed(validators)
    ensures src in WeightMap(validators) <==> Seen(validators, src)
  {
    if validators == [] {
    } else {
      var k := |validators| - 1;
      var front := validators[..k];
      WeighedIsSeen(front, src);
      if Seen(front, src) { var j :| 0 <= j < k && front[j].source == src; assert validators[j].source == src; }
      if Seen(validators, src) && validators[k].source != src {
        var j :| 0 <= j < |validators| && validators[j].source == src;
        assert front[j].source == src;
      }
    }
  }

  ghost predicate RowFine(validators: seq<Validator>, i: nat)
    requires i < |validators|
  {
    && (exists c :: c in validators[i].source && c !in " \t\n\r")
    && (validators[i].weight.Some? || Seen(validators[..i], validators[i].source))
  }

  /** A snapshot is refused exactly for a row whose source is blank, or a source's first row without a number. */
  lemma {:induction false} WellFormedIff(validators: seq<Validator>)
    ensures WellFormed(validators) <==> forall i :: 0 <= i < |validators| ==> RowFine(validators, i)
  {
    if validators == [] {
    } else {
      var k := |validators| - 1;
      var front := validators[..k];
      WellFormedIff(front);
      forall i | 0 <= i < k ensures RowFine(front, i) <==> RowFine(validators, i) { assert front[..i] == validators[..i]; }
      assert (forall i :: 0 <= i < |validators| ==> RowFine(validators, i)) <==>
             RowFine(validators, k) && forall i :: 0 <= i < k ==> RowFine(validators, i);
      BlankIff(validators[k].source);
      if WellFormed(front) { WeighedIsSeen(front, validators[k].source); }
    }
  }

  lemma BlankIff(s: string)
    ensures !Blank(s) <==> exists c :: c in s && c !in " \t\n\r"
  {
    var white := " \t\n\r";
    assert forall c :: c in white <==> c == white[0] || c == white[1] || c == white[2] || c == white[3];
    if c :| c in s && c !in white { var i :| 0 <= i < |s| && s[i] == c; }
    if !Blank(s) { var i :| 0 <= i < |s| && s[i] !in {' ', '\t', '\n', '\r'}; assert s[i] in s; }
  }
}
