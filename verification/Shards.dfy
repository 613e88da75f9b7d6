/** Dealing test files into shards and checking the dealing (bin/ci_shard.js). */
module Shards {
  import opened Options
  import opened Sets

  // ---- Dealing ----

  function Min(a: int, b: int): int { if a < b then a else b }

  function Max(a: int, b: int): int { if a > b then a else b }

  function ShardTotal(files: nat, count: nat): nat { Min(count, Max(files, 1)) }

  /** As many shards as were asked for, but no more than there are files, and at least one if any was asked for. */
  lemma ShardTotalIs(files: nat, count: nat, n: nat)
    ensures n <= ShardTotal(files, count) <==> n <= count && (n <= files || n <= 1)
  {
  }

  /** The files at the positions that leave remainder k, in order. */
  function Dealt(files: seq<string>, n: nat, k: nat): seq<string>
    requires n > 0
  {
    if files == [] then []
    else
      var last := |files| - 1;
      Dealt(files[..last], n, k) + (if last % n == k then [files[last]] else [])
  }

  /** Every shard dealt from the files, in order. */
  function Deal(files: seq<string>, n: nat): (r: seq<seq<string>>)
    requires n > 0
    ensures |r| == n && forall k :: 0 <= k < n ==> r[k] == Dealt(files, n, k)
  {
    seq(n, k requires k >= 0 => Dealt(files, n, k))
  }

  method DealShards(files: seq<string>, count: nat) returns (shards: seq<seq<string>>)
    requires count > 0
    ensures |shards| == ShardTotal(|files|, count) > 0
    ensures shards == Deal(files, |shards|)
  {
    var n := ShardTotal(|files|, count);
    shards := seq(n, _ => []);
    for i := 0 to |files|
      invariant |shards| == n
      invariant forall k :: 0 <= k < n ==> shards[k] == Dealt(files[..i], n, k)
    {
      assert files[..i + 1][..i] == files[..i];
      shards := shards[i % n := shards[i % n] + [files[i]]];
    }
    assert files[..|files|] == files;
  }

  /** Sizes: whole rounds, and one more for the shards before the next one to be dealt. */
  lemma {:induction false} DealtSize(files: seq<string>, n: nat, k: nat)
    requires 0 <= k < n
    ensures |Dealt(files, n, k)| == |files| / n + (if k < |files| % n then 1 else 0)
  {
    if files == [] {
      DivMod(0, n, 0, 0);
    } else {
      var last := |files| - 1;
      DealtSize(files[..last], n, k);
      DealtGrows(files, n, k);
      OneMoreDealt(last, n, k);
    }
  }

  lemma DealtGrows(files: seq<string>, n: nat, k: nat)
    requires n > 0 && files != []
    ensures var last := |files| - 1;
            |Dealt(files, n, k)| == |Dealt(files[..last], n, k)| + (if last % n == k then 1 else 0)
  {
  }

  /** The count of positions before i that leave remainder k, and one position more. */
  lemma OneMoreDealt(i: nat, n: nat, k: nat)
    requires k < n
    ensures (i + 1) / n + (if k < (i + 1) % n then 1 else 0) ==
            i / n + (if k < i % n then 1 else 0) + (if i % n == k then 1 else 0)
  {
    NextPosition(i, n);
  }

  lemma NextPosition(i: nat, n: nat)
    requires n > 0
    ensures i % n == n - 1 ==> (i + 1) / n == i / n + 1 && (i + 1) % n == 0
    ensures i % n != n - 1 ==> (i + 1) / n == i / n && (i + 1) % n == i % n + 1
  {
    var q, r := i / n, i % n;
    assert i == q * n + r && 0 <= r < n;
    if r == n - 1 {
      assert i + 1 == (q + 1) * n;
      DivMod(i + 1, n, q + 1, 0);
    } else {
      DivMod(i + 1, n, q, r + 1);
    }
  }

  lemma DivMod(i: nat, n: nat, q: nat, r: nat)
    requires n > 0 && i == q * n + r && r < n
    ensures i / n == q && i % n == r
  {
    MultipleBound(i / n - q, n);
    assert (i / n - q) * n == r - i % n;
  }

  lemma MultipleBound(d: int, n: int)
    requires n > 0
    ensures d > 0 ==> d * n >= n
    ensures d < 0 ==> d * n <= -n
  {
  }

  /** All the shards in a row. */
  function Flat(shards: seq<seq<string>>): seq<string> {
    if shards == [] then [] else shards[0] + Flat(shards[1..])
  }

  lemma {:induction false} FlatUpdate(shards: seq<seq<string>>, k: nat, x: string)
    requires k < |shards|
    ensures multiset(Flat(shards[k := shards[k] + [x]])) == multiset(Flat(shards)) + multiset{x}
  {
    var more := shards[k := shards[k] + [x]];
    if k == 0 {
      assert more[1..] == shards[1..];
    } else {
      assert more[0] == shards[0] && more[1..] == shards[1..][k - 1 := shards[1..][k - 1] + [x]];
      FlatUpdate(shards[1..], k - 1, x);
    }
  }

  lemma {:induction false} FlatEmpty(shards: seq<seq<string>>)
    requires forall k :: 0 <= k < |shards| ==> shards[k] == []
    ensures Flat(shards) == []
  {
    if shards == [] {
    } else {
      FlatEmpty(shards[1..]);
    }
  }

  /** One more file goes to the next shard in turn. */
  lemma DealStep(files: seq<string>, n: nat)
    requires n > 0 && files != []
    ensures var last := |files| - 1; var before := Deal(files[..last], n);
            Deal(files, n) == before[last % n := before[last % n] + [files[last]]]
  {
    var last := |files| - 1;
    var before := Deal(files[..last], n);
    var after := before[last % n := before[last % n] + [files[last]]];
    forall k | 0 <= k < n ensures Deal(files, n)[k] == after[k] {
      assert Dealt(files, n, k) == Dealt(files[..last], n, k) + (if last % n == k then [files[last]] else []);
    }
  }

  lemma FlatStep(files: seq<string>, n: nat)
    requires n > 0 && files != []
    ensures var last := |files| - 1;
            multiset(Flat(Deal(files, n))) == multiset(Flat(Deal(files[..last], n))) + multiset{files[last]}
  {
    var last := |files| - 1;
    FlatUpdate(Deal(files[..last], n), last % n, files[last]);
    DealStep(files, n);
  }

  lemma BagAppend(files: seq<string>, x: string)
    ensures multiset(files + [x]) == multiset(files) + multiset{x}
  {
  }

  /** The shards hold every file as often as the list does. */
  lemma {:induction false} DealPartitions(files: seq<string>, n: nat)
    requires n > 0
    ensures multiset(Flat(Deal(files, n))) == multiset(files)
  {
    if files == [] {
      FlatEmpty(Deal(files, n));
    } else {
      var rest, x := files[..|files| - 1], files[|files| - 1];
      assert files == rest + [x];
      calc {
        multiset(Flat(Deal(files, n)));
        { FlatStep(files, n); }
        multiset(Flat(Deal(rest, n))) + multiset{x};
        { DealPartitions(rest, n); }
        multiset(rest) + multiset{x};
        { BagAppend(rest, x); }
        multiset(files);
      }
    }
  }

  /** Shard sizes differ by at most one. */
  lemma DealBalanced(files: seq<string>, n: nat, j: nat, k: nat)
    requires j < n && k < n
    ensures |Deal(files, n)[j]| <= |Deal(files, n)[k]| + 1
  {
    DealtSize(files, n, j);
    DealtSize(files, n, k);
  }

  // ---- Checking a dealing ----

  datatype PartitionError = WrongCount(dealt: nat, files: nat) | DealtTwice | Stray(file: string)

  ghost predicate NoDuplicates(s: seq<string>) {
    forall i, j :: 0 <= i < j < |s| ==> s[i] != s[j]
  }

  function FirstStray(dealt: seq<string>, want: set<string>): (r: Option<string>)
    ensures r.None? <==> forall x :: x in dealt ==> x in want
    ensures r.Some? ==> r.value in dealt && r.value !in want
  {
    if dealt == [] then None
    else if dealt[0] !in want then Some(dealt[0])
    else FirstStray(dealt[1..], want)
  }

  /** As in the source, a stray file named by the empty string is not reported. */
  function PartitionErrorOf(files: seq<string>, shards: seq<seq<string>>): Option<PartitionError> {
    var dealt := Flat(shards);
    if |dealt| != |files| then Some(WrongCount(|dealt|, |files|))
    else if |Elements(dealt)| != |dealt| then Some(DealtTwice)
    else
      match FirstStray(dealt, Elements(files))
      case None => None
      case Some(stray) => if stray == "" then None else Some(Stray(stray))
  }

  ghost predicate ExactPartition(files: seq<string>, shards: seq<seq<string>>) {
    NoDuplicates(files) && multiset(Flat(shards)) == multiset(files)
  }

  /** The dealing hides a stray empty name behind the right count. */
  predicate HiddenStray(files: seq<string>, shards: seq<seq<string>>) {
    var dealt := Flat(shards);
    |dealt| == |files| && |Elements(dealt)| == |dealt| && FirstStray(dealt, Elements(files)) == Some("")
  }

  lemma DuplicateSplit(s: seq<string>, x: string)
    ensures NoDuplicates(s + [x]) <==> NoDuplicates(s) && x !in s
  {
    var t := s + [x];
    if NoDuplicates(t) {
      assert forall i, j :: 0 <= i < j < |s| ==> t[i] == s[i] && t[j] == s[j];
      forall i | 0 <= i < |s| ensures s[i] != x { assert t[i] != t[|s|]; }
    }
  }

  lemma {:induction false} ElementsCount(s: seq<string>)
    ensures |Elements(s)| <= |s|
    ensures |Elements(s)| == |s| <==> NoDuplicates(s)
  {
    if s == [] {
    } else {
      var rest, x := s[..|s| - 1], s[|s| - 1];
      assert s == rest + [x];
      ElementsCount(rest);
      DuplicateSplit(rest, x);
      assert Elements(s) == Elements(rest) + {x};
      assert x in Elements(rest) <==> x in rest;
    }
  }

  lemma {:induction false} OnceEach(s: seq<string>, x: string)
    requires NoDuplicates(s)
    ensures multiset(s)[x] == if x in s then 1 else 0
  {
    if s == [] {
    } else {
      var last := |s| - 1;
      assert s == s[..last] + [s[last]];
      OnceEach(s[..last], x);
    }
  }

  lemma SameElementsSameBag(a: seq<string>, b: seq<string>)
    requires NoDuplicates(a) && NoDuplicates(b)
    ensures Elements(a) == Elements(b) <==> multiset(a) == multiset(b)
  {
    if Elements(a) == Elements(b) {
      forall x ensures multiset(a)[x] == multiset(b)[x] {
        OnceEach(a, x);
        OnceEach(b, x);
        assert x in a <==> x in Elements(a);
        assert x in b <==> x in Elements(b);
      }
    }
    if multiset(a) == multiset(b) {
      assert forall x :: x in a <==> x in multiset(a);
      assert forall x :: x in b <==> x in multiset(b);
    }
  }

  /** A dealing with no error and no stray name is exact, by counting. */
  lemma CountedIsExact(files: seq<string>, dealt: seq<string>)
    ensures |dealt| == |files| && |Elements(dealt)| == |dealt| && Elements(dealt) <= Elements(files) <==>
            NoDuplicates(files) && multiset(dealt) == multiset(files)
  {
    ElementsCount(files);
    ElementsCount(dealt);
    if |dealt| == |files| && |Elements(dealt)| == |dealt| && Elements(dealt) <= Elements(files) {
      SubsetSize(Elements(dealt), Elements(files));
      SameElementsSameBag(dealt, files);
    }
    if NoDuplicates(files) && multiset(dealt) == multiset(files) {
      SameBagSameElements(dealt, files);
    }
  }

  lemma SameBagSameElements(a: seq<string>, b: seq<string>)
    requires multiset(a) == multiset(b)
    ensures |a| == |b| && Elements(a) == Elements(b)
  {
    assert |a| == |multiset(a)| && |b| == |multiset(b)|;
    assert forall x :: x in a <==> x in multiset(a);
    assert forall x :: x in b <==> x in multiset(b);
  }

  /** No error is reported exactly when the dealing is an exact partition of a duplicate-free list, or hides a stray
      empty name. */
  lemma NoErrorIff(files: seq<string>, shards: seq<seq<string>>)
    ensures PartitionErrorOf(files, shards) == None <==> ExactPartition(files, shards) || HiddenStray(files, shards)
    ensures HiddenStray(files, shards) ==> !ExactPartition(files, shards)
  {
    var dealt := Flat(shards);
    CountedIsExact(files, dealt);
    assert FirstStray(dealt, Elements(files)).None? <==> Elements(dealt) <= Elements(files);
  }

  /** Such a dealing exists. */
  lemma HiddenStrayExample()
    ensures HiddenStray(["a"], [[""]]) && PartitionErrorOf(["a"], [[""]]) == None && !ExactPartition(["a"], [[""]])
  {
    var shards := [[""]];
    assert shards[1..] == [];
    assert Flat(shards) == [""];
    assert Elements([""]) == {""} && Elements(["a"]) == {"a"};
    NoErrorIff(["a"], shards);
  }

  /** The dealing passes its own check exactly when the list is duplicate-free. */
  lemma DealPassesIff(files: seq<string>, n: nat)
    requires n > 0
    ensures PartitionErrorOf(files, Deal(files, n)) == None <==> NoDuplicates(files)
  {
    DealPartitions(files, n);
    NoErrorIff(files, Deal(files, n));
    SameBagSameElements(Flat(Deal(files, n)), files);
  }

  /** With as many files as shards no shard is empty: the k-th opens with the k-th file. */
  lemma {:induction false} NoShardEmpty(files: seq<string>, n: nat, k: nat)
    requires k < n && k < |files|
    ensures Dealt(files, n, k) != [] && Dealt(files, n, k)[0] == files[k]
  {
    var last := |files| - 1;
    if k < last {
      NoShardEmpty(files[..last], n, k);
    } else {
      NothingBefore(files[..last], n, k);
    }
  }

  lemma {:induction false} NothingBefore(files: seq<string>, n: nat, k: nat)
    requires |files| <= k < n
    ensures Dealt(files, n, k) == []
  {
    if files == [] {
    } else {
      NothingBefore(files[..|files| - 1], n, k);
    }
  }

  /** What each error says is so. */
  lemma ErrorMeans(files: seq<string>, shards: seq<seq<string>>)
    requires PartitionErrorOf(files, shards).Some?
    ensures match PartitionErrorOf(files, shards).value
            case WrongCount(dealt, listed) => dealt == |Flat(shards)| != |files| == listed
            case DealtTwice => !NoDuplicates(Flat(shards))
            case Stray(file) => file in Flat(shards) && file !in files && file != ""
  {
    ElementsCount(Flat(shards));
  }
}
