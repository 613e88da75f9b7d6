/** Writing one batch into two databases that cannot commit together (bin/recovery.js).

    The mirror tables live in one database and the staged anchor rewards in another. A batch
    is written under one transaction on each handle; the mirror commits first and the rewards
    second. `Faults` chooses, for one attempt, where the databases fail. A handle without the
    transaction calls writes straight through. `M` is the state of the mirror, `apply` the
    effect of one mirror write `W` on it, and `R` a reward row.
 */
module TwoCommits {
  import opened Options

  /** The writes of a batch, in the order the code issues them. */
  datatype Write<W, R> = MirrorWrite(w: W) | RewardWrite(r: R)

  function OneMirrored<M, W, R>(apply: (M, W) -> M, m: M, w: Write<W, R>): M {
    if w.MirrorWrite? then apply(m, w.w) else m
  }

  function Mirrored<M, W, R>(apply: (M, W) -> M, m: M, ws: seq<Write<W, R>>): M {
    if ws == [] then m else OneMirrored(apply, Mirrored(apply, m, ws[..|ws| - 1]), ws[|ws| - 1])
  }

  function Staged<W, R>(w: Write<W, R>): multiset<R> {
    if w.RewardWrite? then multiset{w.r} else multiset{}
  }

  /** The rewards a batch stages. */
  function Rewards<W, R>(ws: seq<Write<W, R>>): multiset<R> {
    if ws == [] then multiset{} else Rewards(ws[..|ws| - 1]) + Staged(ws[|ws| - 1])
  }

  predicate HasRewards<W, R>(ws: seq<Write<W, R>>) {
    ws != [] && (HasRewards(ws[..|ws| - 1]) || ws[|ws| - 1].RewardWrite?)
  }

  lemma {:induction false} NoRewards<W, R>(ws: seq<Write<W, R>>)
    ensures HasRewards(ws) <==> Rewards(ws) != multiset{}
    ensures HasRewards(ws) ==> |Rewards(ws)| > 0
  {
    if ws == [] {
    } else {
      NoRewards(ws[..|ws| - 1]);
    }
  }

  lemma {:induction false} PrefixRewards<W, R>(ws: seq<Write<W, R>>, n: nat)
    requires n <= |ws| && !HasRewards(ws)
    ensures !HasRewards(ws[..n])
    decreases |ws|
  {
    if n == |ws| {
      assert ws[..n] == ws;
    } else {
      assert ws[..|ws| - 1][..n] == ws[..n];
      PrefixRewards(ws[..|ws| - 1], n);
    }
  }

  lemma WritesStep<M, W, R>(apply: (M, W) -> M, m: M, ws: seq<Write<W, R>>, n: nat)
    requires n < |ws|
    ensures Mirrored(apply, m, ws[..n + 1]) == OneMirrored(apply, Mirrored(apply, m, ws[..n]), ws[n])
    ensures Rewards(ws[..n + 1]) == Rewards(ws[..n]) + Staged(ws[n])
  {
    assert ws[..n + 1][..n] == ws[..n];
  }

  // ---- One attempt ----

  /** A commit lands, aborts with an error, or lands and still reports an error. */
  datatype Commit = Lands | Aborts | LandsButThrows

  /** Where one attempt fails: at a begin, at the write with this index, at a commit, at a rollback. */
  datatype Faults = Faults(beginMirror: bool, beginRewards: bool, write: Option<nat>,
                           commitMirror: Commit, commitRewards: Commit, rollbackMirror: bool, rollbackRewards: bool)

  const CLEAN := Faults(false, false, None, Lands, Lands, false, false)

  /** Which handles offer transactions; `rewardDb` says whether a reward database was given at all. */
  datatype Handles = Handles(mirrorTx: bool, rewardTx: bool, rewardDb: bool)

  const TRANSACTIONAL := Handles(true, true, true)

  datatype Store<M, R> = Store(mirror: M, staged: multiset<R>)

  datatype Outcome<M, R> = Outcome(store: Store<M, R>, ok: bool)

  function Written<W, R>(batch: seq<Write<W, R>>, f: Faults): (n: nat)
    ensures n <= |batch|
  {
    if f.write.Some? && f.write.value < |batch| then f.write.value else |batch|
  }

  /** The two commits, the mirror first, once every write went through; `w` is the written state. */
  function CommitBoth<M, R>(st: Store<M, R>, w: Store<M, R>, rewards: bool, f: Faults, h: Handles): Outcome<M, R> {
    var staged := if h.rewardTx then st.staged else w.staged;
    if h.mirrorTx && f.commitMirror.Aborts? then Outcome(Store(st.mirror, staged), false)
    else if h.mirrorTx && f.commitMirror.LandsButThrows? then Outcome(Store(w.mirror, staged), false)
    else if rewards && h.rewardTx && !f.commitRewards.Lands? then
      Outcome(Store(w.mirror, if f.commitRewards.Aborts? then st.staged else w.staged), false)
    else Outcome(w, true)
  }

  /** One attempt, given what its writes do. */
  function Settle<M, R>(st: Store<M, R>, w: Store<M, R>, rewards: bool, all: bool, f: Faults, h: Handles): Outcome<M, R> {
    if rewards && !h.rewardDb then Outcome(st, false)
    else if h.mirrorTx && f.beginMirror then Outcome(st, false)
    else if rewards && h.rewardTx && f.beginRewards then Outcome(st, false)
    else if !all then Outcome(Store(if h.mirrorTx then st.mirror else w.mirror, if h.rewardTx then st.staged else w.staged), false)
    else CommitBoth(st, w, rewards, f, h)
  }

  function WriteAll<M, W, R>(apply: (M, W) -> M, st: Store<M, R>, ws: seq<Write<W, R>>): Store<M, R> {
    Store(Mirrored(apply, st.mirror, ws), st.staged + Rewards(ws))
  }

  /** What is committed on both databases after one attempt, and whether it reports success. */
  function Attempt<M, W, R>(apply: (M, W) -> M, st: Store<M, R>, batch: seq<Write<W, R>>, f: Faults,
                            h: Handles): Outcome<M, R> {
    var n := Written(batch, f);
    Settle(st, WriteAll(apply, st, batch[..n]), HasRewards(batch), n == |batch|, f, h)
  }

  // ---- The code ----

  class Handle<S> {
    const transactional: bool
    var committed: S
    var working: S
    var open: bool

    constructor (s: S, transactional: bool)
      ensures committed == s && !open && this.transactional == transactional
    {
      this.transactional := transactional;
      committed, working, open := s, s, false;
    }

    /** What a statement on this handle reads and writes. */
    function View(): S
      reads this
    {
      if open then working else committed
    }

    method Begin(fails: bool) returns (began: bool, threw: bool)
      requires !open
      modifies this
      ensures committed == old(committed)
      ensures began == open == (transactional && !fails) && threw == (transactional && fails)
      ensures View() == committed
    {
      began, threw := false, false;
      if transactional {
        if fails { threw := true; } else { working, open, began := committed, true, true; }
      }
    }

    method Put(s: S)
      modifies this
      ensures open == old(open) && View() == s
      ensures open ==> committed == old(committed)
    {
      if open { working := s; } else { committed := s; }
    }

    /** A commit that fails has already rolled back and released its connection. */
    method CommitTransaction(c: Commit) returns (threw: bool)
      requires open
      modifies this
      ensures !open && threw == !c.Lands?
      ensures committed == if c.Aborts? then old(committed) else old(working)
    {
      if !c.Aborts? { committed := working; }
      open := false;
      threw := !c.Lands?;
    }

    /** With nothing open this does nothing; a failed rollback still releases the connection and
        the server discards the transaction. */
    method SafeRollback(fails: bool) returns (warned: bool)
      modifies this
      ensures !open && committed == old(committed)
      ensures warned == (old(open) && fails)
    {
      warned := open && fails;
      open := false;
    }
  }

  /** The handle stays as open as it was and, inside a transaction, commits nothing. */
  twostate predicate Kept<S>(h: Handle<S>)
    reads h
  {
    h.open == old(h.open) && (h.open ==> h.committed == old(h.committed))
  }

  /** An archive head: its sequence number, its action, whether its batch verifies, and what it writes. */
  datatype ArchiveHead<W, R> = ArchiveHead(batchSeq: int, actionIndex: int, verifies: bool, writes: seq<Write<W, R>>)

  predicate Before<W, R>(a: ArchiveHead<W, R>, b: ArchiveHead<W, R>) {
    a.batchSeq < b.batchSeq || (a.batchSeq == b.batchSeq && a.actionIndex < b.actionIndex)
  }

  ghost predicate Ordered<W, R>(heads: seq<ArchiveHead<W, R>>) {
    forall i, j :: 0 <= i < j < |heads| ==> Before(heads[i], heads[j])
  }

  ghost predicate SameHeads<W, R>(a: seq<ArchiveHead<W, R>>, b: seq<ArchiveHead<W, R>>) {
    (forall h :: h in a ==> h in b) && forall h :: h in b ==> h in a
  }

  lemma RestSame<W, R>(a: seq<ArchiveHead<W, R>>, b: seq<ArchiveHead<W, R>>, h: ArchiveHead<W, R>)
    requires Ordered(a) && Ordered(b) && SameHeads(a, b) && a != [] && b != [] && a[0] == b[0] && h in a[1..]
    ensures h in b[1..]
  {
    var i :| 1 <= i < |a| && a[i] == h;
    assert Before(a[0], h) && h in b;
  }

  /** Ordering by (match_batch_seq, action_index) fixes the replay: the same heads in the same order
      on every node, equal batch sequence numbers included. */
  lemma {:induction false} ReplayOrderUnique<W, R>(a: seq<ArchiveHead<W, R>>, b: seq<ArchiveHead<W, R>>)
    requires Ordered(a) && Ordered(b) && SameHeads(a, b)
    ensures a == b
  {
    assert (a != [] ==> a[0] in b) && (b != [] ==> b[0] in a);
    if a == [] {
    } else {
      assert a[0] == b[0];
      forall h | h in a[1..] ensures h in b[1..] { RestSame(a, b, h); }
      forall h | h in b[1..] ensures h in a[1..] { RestSame(b, a, h); }
      ReplayOrderUnique(a[1..], b[1..]);
    }
  }

  datatype PassResult<M, R> = PassResult(store: Store<M, R>, failed: seq<int>)

  /** One run over the heads in replay order. */
  function Pass<M, W, R>(apply: (M, W) -> M, st: Store<M, R>, heads: seq<ArchiveHead<W, R>>, fs: seq<Faults>,
                         h: Handles): PassResult<M, R>
    requires |fs| == |heads|
  {
    if heads == [] then PassResult(st, [])
    else
      var n := |heads| - 1;
      var before := Pass(apply, st, heads[..n], fs[..n], h);
      if !heads[n].verifies then before.(failed := before.failed + [heads[n].batchSeq])
      else
        var o := Attempt(apply, before.store, heads[n].writes, fs[n], h);
        PassResult(o.store, if o.ok then before.failed else before.failed + [heads[n].batchSeq])
  }

  lemma PassStep<M, W, R>(apply: (M, W) -> M, st: Store<M, R>, heads: seq<ArchiveHead<W, R>>, fs: seq<Faults>,
                          h: Handles, n: nat)
    requires |fs| == |heads| && n < |heads|
    ensures var before, after := Pass(apply, st, heads[..n], fs[..n], h), Pass(apply, st, heads[..n + 1], fs[..n + 1], h);
            var o := Attempt(apply, before.store, heads[n].writes, fs[n], h);
            var ok := heads[n].verifies && o.ok;
            && after.store == (if heads[n].verifies then o.store else before.store)
            && after.failed == before.failed + (if ok then [] else [heads[n].batchSeq])
  {
    assert heads[..n + 1][..n] == heads[..n] && fs[..n + 1][..n] == fs[..n];
  }

  /** Committing the handles that are open is committing by what was begun: a handle that writes straight
      through already holds the written state. */
  lemma SameCommits<M, R>(st: Store<M, R>, w: Store<M, R>, rewards: bool, f: Faults, h: Handles)
    requires !rewards ==> w.staged == st.staged
    ensures var btcTx := rewards && h.rewardTx;
            var held := Store(if h.mirrorTx then st.mirror else w.mirror, if btcTx then st.staged else w.staged);
            CommitBoth(held, w, btcTx, f, Handles(h.mirrorTx, btcTx, h.rewardDb)) == CommitBoth(st, w, rewards, f, h)
  {
  }

  class AnchorRecovery<M, W, R(==)> {
    const apply: (M, W) -> M
    const db: Handle<M>
    const btcDb: Handle<multiset<R>>
    const rewardDb: bool  // whether btcDb is really there; without one it is never touched
    var report: nat
    var verified: nat
    var failed: seq<int>

    constructor (apply: (M, W) -> M, db: Handle<M>, btcDb: Handle<multiset<R>>, rewardDb: bool)
      ensures this.apply == apply && this.db == db && this.btcDb == btcDb && this.rewardDb == rewardDb
      ensures report == 0 && verified == 0 && failed == []
    {
      this.apply, this.db, this.btcDb, this.rewardDb := apply, db, btcDb, rewardDb;
      report, verified, failed := 0, 0, [];
    }

    ghost predicate Idle()
      reads this, db, btcDb
    {
      !db.open && !btcDb.open
    }

    ghost predicate Separate() {
      (db as object) != (btcDb as object)
    }

    ghost function HandlesOf(): Handles {
      Handles(db.transactional, btcDb.transactional, rewardDb)
    }

    ghost function StoreOf(): Store<M, R>
      reads this, db, btcDb
    {
      Store(db.committed, btcDb.committed)
    }

    /** One statement, on the handle it belongs to. */
    method OneWrite(w: Write<W, R>)
      requires Separate()
      modifies db, btcDb
      ensures Kept(db) && Kept(btcDb)
      ensures db.View() == OneMirrored(apply, old(db.View()), w)
      ensures btcDb.View() == old(btcDb.View()) + Staged(w)
    {
      if w.RewardWrite? {
        btcDb.Put(btcDb.View() + multiset{w.r});
      } else {
        db.Put(apply(db.View(), w.w));
      }
    }

    /** Issue the writes up to the one that fails; `delta` counts what went through. */
    method WriteBatch(batch: seq<Write<W, R>>, f: Faults) returns (delta: nat, threw: bool)
      requires Separate()
      modifies db, btcDb
      ensures delta == Written(batch, f) && threw == (delta < |batch|)
      ensures Kept(db) && Kept(btcDb)
      ensures db.View() == Mirrored(apply, old(db.View()), batch[..delta])
      ensures btcDb.View() == old(btcDb.View()) + Rewards(batch[..delta])
    {
      delta := 0;
      var stop := Written(batch, f);  // the write at this index throws
      ghost var m, s := db.View(), btcDb.View();
      while delta < stop
        invariant delta <= stop
        invariant Kept(db) && Kept(btcDb)
        invariant db.View() == Mirrored(apply, m, batch[..delta])
        invariant btcDb.View() == s + Rewards(batch[..delta])
      {
        WritesStep(apply, m, batch, delta);
        OneWrite(batch[delta]);
        delta := delta + 1;
      }
      threw := delta < |batch|;
    }

    /** The commits, then the unwinding when anything threw. */
    method Finish(dogeTx: bool, btcTx: bool, f: Faults, threwBefore: bool) returns (threw: bool)
      requires Separate() && dogeTx == db.open && btcTx == btcDb.open
      modifies db, btcDb
      ensures Idle()
      ensures threwBefore ==> threw && StoreOf() == old(StoreOf())
      ensures !threwBefore ==>
        Outcome(StoreOf(), !threw) ==
        CommitBoth(old(StoreOf()), Store(old(db.View()), old(btcDb.View())), btcTx, f, Handles(dogeTx, btcTx, rewardDb))
    {
      threw := threwBefore;
      if !threw && dogeTx { threw := db.CommitTransaction(f.commitMirror); }
      if !threw && btcTx { threw := btcDb.CommitTransaction(f.commitRewards); }
      if threw {
        if btcTx { var w := btcDb.SafeRollback(f.rollbackRewards); }
        if dogeTx { var w := db.SafeRollback(f.rollbackMirror); }
      }
    }

    /** One batch: begin, write, commit the mirror, commit the rewards, or unwind. */
    method RebuildBatch(batch: seq<Write<W, R>>, f: Faults) returns (ok: bool)
      requires Idle() && Separate()
      modifies this`report, db, btcDb
      ensures Idle()
      ensures Outcome(StoreOf(), ok) == Attempt(apply, old(StoreOf()), batch, f, HandlesOf())
      ensures report == if ok then old(report) + |batch| else old(report)
    {
      var rewards := HasRewards(batch);
      ghost var st, h := StoreOf(), HandlesOf();
      if rewards && !rewardDb { return false; }
      var dogeTx, btcTx, threw := false, false, false;
      dogeTx, threw := db.Begin(f.beginMirror);
      if !threw && rewards { btcTx, threw := btcDb.Begin(f.beginRewards); }
      var delta := 0;
      if !threw {
        delta, threw := WriteBatch(batch, f);
        if !rewards { PrefixRewards(batch, delta); NoRewards(batch[..delta]); }
        SameCommits(st, WriteAll(apply, st, batch[..delta]), rewards, f, h);
      }
      threw := Finish(dogeTx, btcTx, f, threw);
      if threw { return false; }
      report := report + delta;
      return true;
    }

    /** One run over the heads in replay order; a failed batch is listed and the run goes on. */
    method Run(heads: seq<ArchiveHead<W, R>>, faults: seq<Faults>)
      requires Idle() && Separate() && |faults| == |heads|
      modifies this, db, btcDb
      ensures Idle()
      ensures StoreOf() == Pass(apply, old(StoreOf()), heads, faults, HandlesOf()).store
      ensures failed == old(failed) + Pass(apply, old(StoreOf()), heads, faults, HandlesOf()).failed
      ensures verified + |failed| == old(verified) + |old(failed)| + |heads|
    {
      var n := 0;
      while n < |heads|
        invariant 0 <= n <= |heads| && Idle()
        invariant StoreOf() == Pass(apply, old(StoreOf()), heads[..n], faults[..n], HandlesOf()).store
        invariant failed == old(failed) + Pass(apply, old(StoreOf()), heads[..n], faults[..n], HandlesOf()).failed
        invariant verified + |failed| == old(verified) + |old(failed)| + n
      {
        PassStep(apply, old(StoreOf()), heads, faults, HandlesOf(), n);
        var ok := false;
        if heads[n].verifies { ok := RebuildBatch(heads[n].writes, faults[n]); }
        if ok { verified := verified + 1; } else { failed := failed + [heads[n].batchSeq]; }
        n := n + 1;
      }
      assert heads[..n] == heads && faults[..n] == faults;
    }
  }

  // ---- Safety of one attempt, whatever the faults ----

  lemma SettledOk<M, R>(st: Store<M, R>, w: Store<M, R>, rewards: bool, all: bool, f: Faults, h: Handles)
    requires Settle(st, w, rewards, all, f, h).ok
    ensures all && Settle(st, w, rewards, all, f, h).store == w
  {
  }

  /** Reported success means both halves are in full, on any kind of handle. */
  lemma SuccessIsComplete<M, W, R>(apply: (M, W) -> M, st: Store<M, R>, batch: seq<Write<W, R>>, f: Faults, h: Handles)
    requires Attempt(apply, st, batch, f, h).ok
    ensures Attempt(apply, st, batch, f, h).store == WriteAll(apply, st, batch)
  {
    var n := Written(batch, f);
    SettledOk(st, WriteAll(apply, st, batch[..n]), HasRewards(batch), n == |batch|, f, h);
    assert batch[..|batch|] == batch;
  }

  predicate MirrorLands<W, R>(batch: seq<Write<W, R>>, f: Faults) {
    !f.beginMirror && !(HasRewards(batch) && f.beginRewards) && Written(batch, f) == |batch| && !f.commitMirror.Aborts?
  }

  predicate RewardsLand<W, R>(batch: seq<Write<W, R>>, f: Faults) {
    MirrorLands(batch, f) && f.commitMirror.Lands? && HasRewards(batch) && !f.commitRewards.Aborts?
  }

  /** The same for any written state: `mirror` and `staged` say which half lands. */
  lemma SettledForm<M, R>(st: Store<M, R>, w: Store<M, R>, rewards: bool, all: bool, f: Faults, mirror: bool,
                          staged: bool)
    requires !rewards ==> w.staged == st.staged
    requires mirror == (!f.beginMirror && !(rewards && f.beginRewards) && all && !f.commitMirror.Aborts?)
    requires staged == (mirror && f.commitMirror.Lands? && rewards && !f.commitRewards.Aborts?)
    ensures var r := Settle(st, w, rewards, all, f, TRANSACTIONAL);
            && r.store == Store(if mirror then w.mirror else st.mirror, if staged then w.staged else st.staged)
            && (r.ok ==> mirror && (staged || !rewards))
            && (!r.ok && staged ==> f.commitRewards.LandsButThrows?)
  {
  }

  /** On transactional handles each half is all or nothing, rewards land only where the mirror did, and a
      failed attempt has staged its rewards only when their commit landed but reported an error. */
  lemma AttemptForm<M, W, R>(apply: (M, W) -> M, st: Store<M, R>, batch: seq<Write<W, R>>, f: Faults)
    ensures Attempt(apply, st, batch, f, TRANSACTIONAL).store ==
            Store(if MirrorLands(batch, f) then Mirrored(apply, st.mirror, batch) else st.mirror,
                  if RewardsLand(batch, f) then st.staged + Rewards(batch) else st.staged)
    ensures Attempt(apply, st, batch, f, TRANSACTIONAL).ok ==> MirrorLands(batch, f) && (RewardsLand(batch, f) || !HasRewards(batch))
    ensures !Attempt(apply, st, batch, f, TRANSACTIONAL).ok && RewardsLand(batch, f) ==> f.commitRewards.LandsButThrows?
  {
    var n := Written(batch, f);
    var w := WriteAll(apply, st, batch[..n]);
    if !HasRewards(batch) { PrefixRewards(batch, n); NoRewards(batch[..n]); }
    SettledForm(st, w, HasRewards(batch), n == |batch|, f, MirrorLands(batch, f), RewardsLand(batch, f));
    assert batch[..|batch|] == batch;
  }

  /** Rewards are never staged without their mirror rows, and failure never shows half of either side. */
  lemma NeverRewardsAlone<M, W, R>(apply: (M, W) -> M, st: Store<M, R>, batch: seq<Write<W, R>>, f: Faults)
    ensures var r := Attempt(apply, st, batch, f, TRANSACTIONAL).store;
            && (r.mirror == st.mirror || r.mirror == Mirrored(apply, st.mirror, batch))
            && (r.staged == st.staged || r == WriteAll(apply, st, batch))
  {
    AttemptForm(apply, st, batch, f);
  }

  /** With a transactional mirror that safety holds EXACTLY when the reward handle is transactional too: on
      one that writes straight through, an aborted mirror commit leaves the rewards staged alone. */
  lemma RewardsAloneIff<M, W, R>(apply: (M, W) -> M, st: Store<M, R>, batch: seq<Write<W, R>>, h: Handles)
    requires h.mirrorTx && h.rewardDb && HasRewards(batch) && Mirrored(apply, st.mirror, batch) != st.mirror
    ensures (forall f :: Attempt(apply, st, batch, f, h).store.staged == st.staged ||
                         Attempt(apply, st, batch, f, h).store.mirror == Mirrored(apply, st.mirror, batch)) <==> h.rewardTx
  {
    NoRewards(batch);
    assert batch[..|batch|] == batch;
    if h.rewardTx {
      forall f ensures Attempt(apply, st, batch, f, h).store.staged == st.staged ||
                       Attempt(apply, st, batch, f, h).store.mirror == Mirrored(apply, st.mirror, batch)
      {
        NeverRewardsAlone(apply, st, batch, f);
      }
    } else {
      var o := Attempt(apply, st, batch, CLEAN.(commitMirror := Aborts), h);
      assert |o.store.staged| == |st.staged| + |Rewards(batch)|;
    }
  }

  // ---- Retrying one batch ----

  /** Writing the batch's mirror rows again changes nothing. */
  ghost predicate Idempotent<M(!new), W, R>(apply: (M, W) -> M, batch: seq<Write<W, R>>) {
    forall m :: Mirrored(apply, Mirrored(apply, m, batch), batch) == Mirrored(apply, m, batch)
  }

  /** The store after the attempts, oldest first. */
  function Retry<M, W, R>(apply: (M, W) -> M, st: Store<M, R>, batch: seq<Write<W, R>>, fs: seq<Faults>): Store<M, R> {
    if fs == [] then st
    else Attempt(apply, Retry(apply, st, batch, fs[..|fs| - 1]), batch, fs[|fs| - 1], TRANSACTIONAL).store
  }

  /** How many of the attempts committed their rewards. */
  function Landings<W, R>(batch: seq<Write<W, R>>, fs: seq<Faults>): nat {
    if fs == [] then 0
    else Landings(batch, fs[..|fs| - 1]) + if RewardsLand(batch, fs[|fs| - 1]) then 1 else 0
  }

  predicate EverLands<W, R>(batch: seq<Write<W, R>>, fs: seq<Faults>) {
    fs != [] && (EverLands(batch, fs[..|fs| - 1]) || MirrorLands(batch, fs[|fs| - 1]))
  }

  function Times<R>(m: multiset<R>, n: nat): multiset<R> {
    if n == 0 then multiset{} else Times(m, n - 1) + m
  }

  lemma AttemptStages<M, W, R>(apply: (M, W) -> M, st: Store<M, R>, batch: seq<Write<W, R>>, f: Faults,
                               after: Store<M, R>)
    requires after == Attempt(apply, st, batch, f, TRANSACTIONAL).store
    ensures after.staged == if RewardsLand(batch, f) then st.staged + Rewards(batch) else st.staged
  {
    AttemptForm(apply, st, batch, f);
  }

  lemma RetryStep<M, W, R>(apply: (M, W) -> M, st: Store<M, R>, batch: seq<Write<W, R>>, fs: seq<Faults>,
                           before: Store<M, R>)
    requires fs != [] && before == Retry(apply, st, batch, fs[..|fs| - 1])
    ensures Retry(apply, st, batch, fs).staged ==
            if RewardsLand(batch, fs[|fs| - 1]) then before.staged + Rewards(batch) else before.staged
  {
    AttemptStages(apply, before, batch, fs[|fs| - 1], Retry(apply, st, batch, fs));
  }

  /** What the attempts stage, one after the other. */
  function StagedAfter<W, R>(staged: multiset<R>, batch: seq<Write<W, R>>, fs: seq<Faults>): multiset<R> {
    if fs == [] then staged
    else
      var before := StagedAfter(staged, batch, fs[..|fs| - 1]);
      if RewardsLand(batch, fs[|fs| - 1]) then before + Rewards(batch) else before
  }

  lemma {:induction false} RetryStagesEach<M, W, R>(apply: (M, W) -> M, st: Store<M, R>, batch: seq<Write<W, R>>,
                                                    fs: seq<Faults>, after: Store<M, R>)
    requires after == Retry(apply, st, batch, fs)
    ensures after.staged == StagedAfter(st.staged, batch, fs)
    decreases |fs|
  {
    if fs == [] {
    } else {
      var before := Retry(apply, st, batch, fs[..|fs| - 1]);
      RetryStagesEach(apply, st, batch, fs[..|fs| - 1], before);
      RetryStep(apply, st, batch, fs, before);
    }
  }

  lemma OnceMore<R>(staged: multiset<R>, r: multiset<R>, n: nat)
    ensures (staged + Times(r, n)) + r == staged + Times(r, n + 1)
  {
    var times := Times(r, n);
    assert (staged + times) + r == staged + (times + r);
  }

  lemma {:induction false} StagedTimes<W, R>(staged: multiset<R>, batch: seq<Write<W, R>>, fs: seq<Faults>)
    ensures StagedAfter(staged, batch, fs) == staged + Times(Rewards(batch), Landings(batch, fs))
    decreases |fs|
  {
    if fs == [] {
    } else {
      StagedTimes(staged, batch, fs[..|fs| - 1]);
      OnceMore(staged, Rewards(batch), Landings(batch, fs[..|fs| - 1]));
    }
  }

  /** The rewards are staged once per attempt that committed them. */
  lemma RetryStages<M, W, R>(apply: (M, W) -> M, st: Store<M, R>, batch: seq<Write<W, R>>, fs: seq<Faults>)
    ensures Retry(apply, st, batch, fs).staged == st.staged + Times(Rewards(batch), Landings(batch, fs))
  {
    RetryStagesEach(apply, st, batch, fs, Retry(apply, st, batch, fs));
    StagedTimes(st.staged, batch, fs);
  }

  /** However many attempts land, the mirror holds the batch's rows as one landing leaves them. */
  lemma {:induction false} RetryMirrors<M(!new), W, R>(apply: (M, W) -> M, st: Store<M, R>, batch: seq<Write<W, R>>,
                                        fs: seq<Faults>)
    requires Idempotent(apply, batch)
    ensures Retry(apply, st, batch, fs).mirror == if EverLands(batch, fs) then Mirrored(apply, st.mirror, batch) else st.mirror
  {
    if fs == [] {
    } else {
      var k := |fs| - 1;
      RetryMirrors(apply, st, batch, fs[..k]);
      AttemptForm(apply, Retry(apply, st, batch, fs[..k]), batch, fs[k]);
    }
  }

  lemma {:induction false} TimesSize<R>(m: multiset<R>, n: nat)
    ensures n >= 1 ==> |Times(m, n)| >= |m|
    ensures n >= 2 && |m| > 0 ==> |Times(m, n)| > |m|
  {
    if n == 0 {
    } else {
      TimesSize(m, n - 1);
      assert |Times(m, n)| == |Times(m, n - 1)| + |m|;
    }
  }

  lemma {:induction false} LandingsNeedRewards<W, R>(batch: seq<Write<W, R>>, fs: seq<Faults>)
    requires !HasRewards(batch)
    ensures Landings(batch, fs) == 0
  {
    if fs == [] {
    } else {
      LandingsNeedRewards(batch, fs[..|fs| - 1]);
    }
  }

  /** Attempts ending in a success leave the state of one clean attempt EXACTLY when no earlier attempt
      committed its rewards. */
  lemma RetryExactlyOnceIff<M(!new), W, R>(apply: (M, W) -> M, st: Store<M, R>, batch: seq<Write<W, R>>,
                                        fs: seq<Faults>, last: Faults)
    requires Idempotent(apply, batch)
    requires Attempt(apply, Retry(apply, st, batch, fs), batch, last, TRANSACTIONAL).ok
    ensures Retry(apply, st, batch, fs + [last]) == WriteAll(apply, st, batch) <==> Landings(batch, fs) == 0
  {
    var all := fs + [last];
    assert all[..|fs|] == fs;
    RetryStages(apply, st, batch, all);
    RetryMirrors(apply, st, batch, all);
    AttemptForm(apply, Retry(apply, st, batch, fs), batch, last);
    assert EverLands(batch, all);
    NoRewards(batch);
    if HasRewards(batch) {
      StagedOnceIff(st.staged, Rewards(batch), Landings(batch, fs));
    } else {
      LandingsNeedRewards(batch, all);
      LandingsNeedRewards(batch, fs);
    }
  }

  lemma CleanSucceeds<M, W, R>(apply: (M, W) -> M, st: Store<M, R>, batch: seq<Write<W, R>>)
    ensures Attempt(apply, st, batch, CLEAN, TRANSACTIONAL).ok
    ensures HasRewards(batch) ==> !Attempt(apply, st, batch, CLEAN.(commitRewards := LandsButThrows), TRANSACTIONAL).ok
  {
  }

  /** A reward commit that lands and still reports an error: the attempt fails, and the retry that succeeds stages the
      rewards a second time. */
  lemma LandedRetryStagesTwice<M, W, R>(apply: (M, W) -> M, st: Store<M, R>, batch: seq<Write<W, R>>)
    requires HasRewards(batch)
    ensures var landed := CLEAN.(commitRewards := LandsButThrows);
            && !Attempt(apply, st, batch, landed, TRANSACTIONAL).ok
            && Attempt(apply, Retry(apply, st, batch, [landed]), batch, CLEAN, TRANSACTIONAL).ok
            && Retry(apply, st, batch, [landed, CLEAN]).staged == st.staged + Rewards(batch) + Rewards(batch)
  {
    var landed := CLEAN.(commitRewards := LandsButThrows);
    var twice := [landed, CLEAN];
    assert twice[..1] == [landed] && [landed][..0] == [];
    CleanSucceeds(apply, st, batch);
    CleanSucceeds(apply, Retry(apply, st, batch, [landed]), batch);
    RetryStagesEach(apply, st, batch, twice, Retry(apply, st, batch, twice));
    assert RewardsLand(batch, landed) && RewardsLand(batch, CLEAN);
    assert StagedAfter(st.staged, batch, [landed]) == st.staged + Rewards(batch);
  }

  lemma StagedOnceIff<R>(staged: multiset<R>, r: multiset<R>, n: nat)
    requires |r| > 0
    ensures staged + Times(r, n + 1) == staged + r <==> n == 0
  {
    TimesSize(r, n + 1);
    assert Times(r, 1) == r;
    assert |staged + Times(r, n + 1)| == |staged| + |Times(r, n + 1)| && |staged + r| == |staged| + |r|;
  }

  // ---- Whole runs ----

  /** What one pass stages. */
  function StagedBy<W, R>(heads: seq<ArchiveHead<W, R>>, fs: seq<Faults>): multiset<R>
    requires |fs| == |heads|
  {
    if heads == [] then multiset{}
    else
      var n := |heads| - 1;
      StagedBy(heads[..n], fs[..n]) +
      if heads[n].verifies && RewardsLand(heads[n].writes, fs[n]) then Rewards(heads[n].writes) else multiset{}
  }

  /** A pass adds to the staged rewards every batch whose reward commit landed in THIS pass, whether or
      not an earlier pass had staged it already. */
  lemma {:induction false} PassStages<M, W, R>(apply: (M, W) -> M, st: Store<M, R>, heads: seq<ArchiveHead<W, R>>,
                                        fs: seq<Faults>)
    requires |fs| == |heads|
    ensures Pass(apply, st, heads, fs, TRANSACTIONAL).store.staged == st.staged + StagedBy(heads, fs)
  {
    if heads == [] {
    } else {
      var n := |heads| - 1;
      PassStages(apply, st, heads[..n], fs[..n]);
      if heads[n].verifies {
        AttemptForm(apply, Pass(apply, st, heads[..n], fs[..n], TRANSACTIONAL).store, heads[n].writes, fs[n]);
      }
    }
  }

  /** Every write of the verified heads, in replay order. */
  function VerifiedWrites<W, R>(heads: seq<ArchiveHead<W, R>>): seq<Write<W, R>> {
    if heads == [] then []
    else
      var n := |heads| - 1;
      VerifiedWrites(heads[..n]) + if heads[n].verifies then heads[n].writes else []
  }

  /** No verified batch's mirror half is lost in this pass. */
  ghost predicate MirrorsLand<W, R>(heads: seq<ArchiveHead<W, R>>, fs: seq<Faults>) {
    |fs| == |heads| && forall i :: 0 <= i < |heads| && heads[i].verifies ==> MirrorLands(heads[i].writes, fs[i])
  }

  lemma {:induction false} MirroredAppend<M, W, R>(apply: (M, W) -> M, m: M, a: seq<Write<W, R>>, b: seq<Write<W, R>>)
    ensures Mirrored(apply, m, a + b) == Mirrored(apply, Mirrored(apply, m, a), b)
  {
    if b == [] {
      assert a + b == a;
    } else {
      MirroredAppend(apply, m, a, b[..|b| - 1]);
      assert (a + b)[..|a + b| - 1] == a + b[..|b| - 1];
    }
  }

  /** Such a pass is one replay of all verified writes over whatever the mirror held. */
  lemma {:induction false} PassMirrors<M, W, R>(apply: (M, W) -> M, st: Store<M, R>, heads: seq<ArchiveHead<W, R>>,
                                        fs: seq<Faults>)
    requires MirrorsLand(heads, fs)
    ensures Pass(apply, st, heads, fs, TRANSACTIONAL).store.mirror == Mirrored(apply, st.mirror, VerifiedWrites(heads))
  {
    if heads == [] {
    } else {
      var n := |heads| - 1;
      PassMirrors(apply, st, heads[..n], fs[..n]);
      if heads[n].verifies {
        AttemptForm(apply, Pass(apply, st, heads[..n], fs[..n], TRANSACTIONAL).store, heads[n].writes, fs[n]);
        MirroredAppend(apply, st.mirror, VerifiedWrites(heads[..n]), heads[n].writes);
      } else {
        assert VerifiedWrites(heads) == VerifiedWrites(heads[..n]);
      }
    }
  }

  /** A second such pass over the same heads, whatever fails in it, leaves an idempotent mirror alone and stages
      the rewards again. */
  lemma SecondPass<M(!new), W, R>(apply: (M, W) -> M, st: Store<M, R>, heads: seq<ArchiveHead<W, R>>, fs: seq<Faults>,
                                  gs: seq<Faults>)
    requires MirrorsLand(heads, fs) && MirrorsLand(heads, gs) && Idempotent(apply, VerifiedWrites(heads))
    ensures var once := Pass(apply, st, heads, fs, TRANSACTIONAL).store;
            var twice := Pass(apply, once, heads, gs, TRANSACTIONAL).store;
            twice == Store(once.mirror, st.staged + StagedBy(heads, fs) + StagedBy(heads, gs))
  {
    var once := Pass(apply, st, heads, fs, TRANSACTIONAL).store;
    PassMirrors(apply, st, heads, fs);
    PassMirrors(apply, once, heads, gs);
    PassStages(apply, st, heads, fs);
    PassStages(apply, once, heads, gs);
  }
}
