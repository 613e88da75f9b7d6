/** The mirror tables recovery rebuilds, and the two-database protocol over them.

    `Replay` gives the effect of archived rows on one table and `TwoCommits` the protocol for
    any mirror; here the mirror is the three tables together, its writes are shown idempotent,
    and the guarantees of a whole run follow.
 */
module Rebuild {
  import opened Options
  import opened Replay
  import T = TwoCommits

  // ---- What is stored ----

  datatype Leg = Leg(chain: string, actionIndex: int, kind: string, tick: Option<string>, amount: string,
                     filledBefore: string, ownership: int, payoutAddr: string, payoutLegs: Option<string>)
  datatype MatchTerms = MatchTerms(hubId: Option<nat>, snapshotBlock: int, network: string, a: Leg, b: Leg)
  datatype MatchTiming = MatchTiming(effectiveTime: int, finalizingView: int, signatures: string)
  datatype CallContent = CallContent(snapshotBlock: int, network: string, sourceChain: string, sourceActionIndex: int,
                                     sourceContractIndex: int, targetChain: string, targetContractIndex: int, method_: string,
                                     paramsJson: string, gasLimit: int, crossHops: int, effectiveTime: int,
                                     resultStatus: Option<string>, returnPayload: Option<string>, signatures: string, finalizingView: int)
  datatype SnapshotKey = SnapshotKey(block: int, capability: string, pubkey: string)
  datatype SnapshotRow = SnapshotRow(amount: string, source: string)
  datatype Reward = Reward(source: string, pubkey: string, rewardType: string, round: int, amount: string, block: int)

  datatype Mirror = Mirror(snapshots: map<SnapshotKey, SnapshotRow>, matches: Table<MatchTerms, MatchTiming>,
                           calls: Table<int, CallContent>)

  datatype MirrorRow =
    | SnapshotRowWrite(key: SnapshotKey, row: SnapshotRow)
    | MatchRowWrite(m: Entry<MatchTerms, MatchTiming>)
    | CallRowWrite(c: Entry<int, CallContent>)

  type Batch = seq<T.Write<MirrorRow, Reward>>

  /** The effect of one mirror statement. */
  function Put(m: Mirror, w: MirrorRow): Mirror {
    match w
    case SnapshotRowWrite(k, row) => if k in m.snapshots then m else m.(snapshots := m.snapshots[k := row])  // INSERT IGNORE
    case MatchRowWrite(e) => m.(matches := m.matches[e.key := Apply(Lookup(m.matches, e.key), e.event)])
    case CallRowWrite(e) => m.(calls := m.calls[e.key := Apply(Lookup(m.calls, e.key), e.event)])
  }

  function Mirrored(m: Mirror, ws: Batch): Mirror {
    T.Mirrored(Put, m, ws)
  }

  // ---- The mirror half is idempotent ----

  function MatchesIn(ws: Batch): seq<Entry<MatchTerms, MatchTiming>> {
    if ws == [] then []
    else
      var w := ws[|ws| - 1];
      MatchesIn(ws[..|ws| - 1]) + if w.MirrorWrite? && w.w.MatchRowWrite? then [w.w.m] else []
  }

  function CallsIn(ws: Batch): seq<Entry<int, CallContent>> {
    if ws == [] then []
    else
      var w := ws[|ws| - 1];
      CallsIn(ws[..|ws| - 1]) + if w.MirrorWrite? && w.w.CallRowWrite? then [w.w.c] else []
  }

  /** What one write does to the matches and to the calls. */
  lemma TablesStep(m: Mirror, w: T.Write<MirrorRow, Reward>, next: Mirror)
    requires next == T.OneMirrored(Put, m, w)
    ensures next.matches == if w.MirrorWrite? && w.w.MatchRowWrite? then ReplayRow(m.matches, w.w.m) else m.matches
    ensures next.calls == if w.MirrorWrite? && w.w.CallRowWrite? then ReplayRow(m.calls, w.w.c) else m.calls
  {
  }

  function ReplayRow<X, Y>(t: Table<X, Y>, e: Entry<X, Y>): Table<X, Y> {
    t[e.key := Apply(Lookup(t, e.key), e.event)]
  }

  lemma {:induction false} MatchesReplayed(m: Mirror, ws: Batch)
    ensures Mirrored(m, ws).matches == ReplayTable(m.matches, MatchesIn(ws))
  {
    if ws == [] {
    } else {
      var k := |ws| - 1;
      MatchesReplayed(m, ws[..k]);
      TablesStep(Mirrored(m, ws[..k]), ws[k], Mirrored(m, ws));
      if ws[k].MirrorWrite? && ws[k].w.MatchRowWrite? {
        ReplayOne(m.matches, MatchesIn(ws[..k]), ws[k].w.m);
      } else {
        assert MatchesIn(ws) == MatchesIn(ws[..k]);
      }
    }
  }

  lemma {:induction false} CallsReplayed(m: Mirror, ws: Batch)
    ensures Mirrored(m, ws).calls == ReplayTable(m.calls, CallsIn(ws))
  {
    if ws == [] {
    } else {
      var k := |ws| - 1;
      CallsReplayed(m, ws[..k]);
      TablesStep(Mirrored(m, ws[..k]), ws[k], Mirrored(m, ws));
      if ws[k].MirrorWrite? && ws[k].w.CallRowWrite? {
        ReplayOne(m.calls, CallsIn(ws[..k]), ws[k].w.c);
      } else {
        assert CallsIn(ws) == CallsIn(ws[..k]);
      }
    }
  }

  predicate WritesSnapshot(w: T.Write<MirrorRow, Reward>) {
    w.MirrorWrite? && w.w.SnapshotRowWrite?
  }

  predicate Names(w: T.Write<MirrorRow, Reward>, k: SnapshotKey) { WritesSnapshot(w) && w.w.key == k }

  /** The i-th write is the first to name the key. */
  ghost predicate FirstNames(ws: Batch, k: SnapshotKey, i: nat) {
    i < |ws| && Names(ws[i], k) && forall j :: 0 <= j < i ==> !Names(ws[j], k)
  }

  /** A snapshot key keeps the row it had; one that had none holds the row of the first write that names it, and stays
      absent if none does. */
  lemma {:induction false} SnapshotsForm(m: Mirror, ws: Batch, k: SnapshotKey)
    ensures k in m.snapshots ==> k in Mirrored(m, ws).snapshots && Mirrored(m, ws).snapshots[k] == m.snapshots[k]
    ensures k !in m.snapshots ==>
      forall i: nat :: FirstNames(ws, k, i) ==> k in Mirrored(m, ws).snapshots && Mirrored(m, ws).snapshots[k] == ws[i].w.row
    ensures k !in m.snapshots && (forall i :: 0 <= i < |ws| ==> !Names(ws[i], k)) ==> k !in Mirrored(m, ws).snapshots
  {
    if ws == [] {
    } else {
      var n := |ws| - 1;
      SnapshotsForm(m, ws[..n], k);
      assert forall i: nat :: FirstNames(ws, k, i) && i < n ==> FirstNames(ws[..n], k, i);
    }
  }

  /** Snapshot rows are kept on first insert, so a second pass finds every key present. */
  lemma {:induction false} SnapshotsSettle(m: Mirror, ws: Batch)
    requires forall i :: 0 <= i < |ws| && WritesSnapshot(ws[i]) ==> ws[i].w.key in m.snapshots
    ensures Mirrored(m, ws).snapshots == m.snapshots
  {
    if ws == [] {
    } else {
      SnapshotsSettle(m, ws[..|ws| - 1]);
    }
  }

  lemma {:induction false} SnapshotsPresent(m: Mirror, ws: Batch)
    ensures forall i :: 0 <= i < |ws| && WritesSnapshot(ws[i]) ==> ws[i].w.key in Mirrored(m, ws).snapshots
  {
    if ws == [] {
    } else {
      SnapshotsPresent(m, ws[..|ws| - 1]);
    }
  }

  /** Every write on the mirror handle is idempotent under replay, batch by batch and run by run. */
  lemma MirrorIdempotent(m: Mirror, ws: Batch)
    ensures Mirrored(Mirrored(m, ws), ws) == Mirrored(m, ws)
  {
    var n := Mirrored(m, ws);
    MatchesReplayed(m, ws);
    MatchesReplayed(n, ws);
    TableIdempotent(m.matches, MatchesIn(ws));
    CallsReplayed(m, ws);
    CallsReplayed(n, ws);
    TableIdempotent(m.calls, CallsIn(ws));
    SnapshotsPresent(m, ws);
    SnapshotsSettle(n, ws);
  }

  lemma AlwaysIdempotent(ws: Batch)
    ensures T.Idempotent(Put, ws)
  {
    forall m ensures T.Mirrored(Put, T.Mirrored(Put, m, ws), ws) == T.Mirrored(Put, m, ws) { MirrorIdempotent(m, ws); }
  }

  // ---- Whole runs over the real tables ----

  type Heads = seq<T.ArchiveHead<MirrorRow, Reward>>
  type State = T.Store<Mirror, Reward>

  /** A batch retried until it succeeds leaves exactly what one clean attempt leaves, its rewards staged once,
      unless some failed attempt's reward commit had landed. */
  lemma RetriedBatch(st: State, batch: Batch, fs: seq<T.Faults>, last: T.Faults)
    requires T.Attempt(Put, T.Retry(Put, st, batch, fs), batch, last, T.TRANSACTIONAL).ok
    ensures T.Retry(Put, st, batch, fs + [last]) == T.WriteAll(Put, st, batch) <==> T.Landings(batch, fs) == 0
  {
    AlwaysIdempotent(batch);
    T.RetryExactlyOnceIff(Put, st, batch, fs, last);
  }

  /** Two nodes read the same heads, each in replay order, and lose no mirror half. */
  ghost predicate SamePass(ha: Heads, fa: seq<T.Faults>, hb: Heads, fb: seq<T.Faults>) {
    && T.Ordered(ha) && T.Ordered(hb) && T.SameHeads(ha, hb)
    && T.MirrorsLand(ha, fa) && T.MirrorsLand(hb, fb)
  }

  /** Then, whatever earlier failed runs left, they agree on every archived match's status and on the timing of
      every match some batch finalized. */
  lemma PassesConverge(a: State, ha: Heads, fa: seq<T.Faults>, b: State, hb: Heads, fb: seq<T.Faults>, k: string)
    requires SamePass(ha, fa, hb, fb) && EventsOf(MatchesIn(T.VerifiedWrites(ha)), k) != []
    ensures var ma := T.Pass(Put, a, ha, fa, T.TRANSACTIONAL).store.mirror.matches;
            var mb := T.Pass(Put, b, hb, fb, T.TRANSACTIONAL).store.mirror.matches;
            && k in ma && k in mb
            && ma[k].status == mb[k].status
            && (!NoneFinal(EventsOf(MatchesIn(T.VerifiedWrites(ha)), k)) ==> ma[k].content == mb[k].content)
  {
    T.ReplayOrderUnique(ha, hb);
    var ws := T.VerifiedWrites(ha);
    T.PassMirrors(Put, a, ha, fa);
    T.PassMirrors(Put, b, hb, fb);
    MatchesReplayed(a.mirror, ws);
    MatchesReplayed(b.mirror, ws);
    TablesConverge(a.mirror.matches, b.mirror.matches, MatchesIn(ws), k);
  }

  /** And on every archived call's status and the content of every call some batch finalized. */
  lemma CallPassesConverge(a: State, ha: Heads, fa: seq<T.Faults>, b: State, hb: Heads, fb: seq<T.Faults>, k: string)
    requires SamePass(ha, fa, hb, fb) && EventsOf(CallsIn(T.VerifiedWrites(ha)), k) != []
    ensures var ca := T.Pass(Put, a, ha, fa, T.TRANSACTIONAL).store.mirror.calls;
            var cb := T.Pass(Put, b, hb, fb, T.TRANSACTIONAL).store.mirror.calls;
            && k in ca && k in cb
            && ca[k].status == cb[k].status
            && (!NoneFinal(EventsOf(CallsIn(T.VerifiedWrites(ha)), k)) ==> ca[k].content == cb[k].content)
  {
    T.ReplayOrderUnique(ha, hb);
    var ws := T.VerifiedWrites(ha);
    T.PassMirrors(Put, a, ha, fa);
    T.PassMirrors(Put, b, hb, fb);
    CallsReplayed(a.mirror, ws);
    CallsReplayed(b.mirror, ws);
    TablesConverge(a.mirror.calls, b.mirror.calls, CallsIn(ws), k);
  }

  // ---- Which head decides ----

  lemma {:induction false} InAppend(a: Batch, b: Batch)
    ensures MatchesIn(a + b) == MatchesIn(a) + MatchesIn(b) && CallsIn(a + b) == CallsIn(a) + CallsIn(b)
  {
    if b == [] {
      assert a + b == a;
    } else {
      assert (a + b)[..|a + b| - 1] == a + b[..|b| - 1];
      InAppend(a, b[..|b| - 1]);
    }
  }

  lemma {:induction false} EventsAppend<X, Y>(a: seq<Entry<X, Y>>, b: seq<Entry<X, Y>>, k: string)
    ensures EventsOf(a + b, k) == EventsOf(a, k) + EventsOf(b, k)
  {
    if b == [] {
      assert a + b == a;
    } else {
      assert (a + b)[..|a + b| - 1] == a + b[..|b| - 1];
      EventsAppend(a, b[..|b| - 1], k);
    }
  }

  function WritesOf(h: T.ArchiveHead<MirrorRow, Reward>): Batch { if h.verifies then h.writes else [] }

  /** Per head, the archived rows of one match, none if the head does not verify. */
  function MatchRows(heads: Heads, k: string): (rs: seq<seq<Event<MatchTerms, MatchTiming>>>)
    ensures |rs| == |heads| && forall i :: 0 <= i < |heads| ==> rs[i] == EventsOf(MatchesIn(WritesOf(heads[i])), k)
  {
    if heads == [] then []
    else MatchRows(heads[..|heads| - 1], k) + [EventsOf(MatchesIn(WritesOf(heads[|heads| - 1])), k)]
  }

  /** The same for one call. */
  function CallRows(heads: Heads, k: string): (rs: seq<seq<Event<int, CallContent>>>)
    ensures |rs| == |heads| && forall i :: 0 <= i < |heads| ==> rs[i] == EventsOf(CallsIn(WritesOf(heads[i])), k)
  {
    if heads == [] then []
    else CallRows(heads[..|heads| - 1], k) + [EventsOf(CallsIn(WritesOf(heads[|heads| - 1])), k)]
  }

  function Flatten<E>(rs: seq<seq<E>>): seq<E> {
    if rs == [] then [] else Flatten(rs[..|rs| - 1]) + rs[|rs| - 1]
  }

  lemma {:induction false} RowsFlatten(heads: Heads, k: string)
    ensures EventsOf(MatchesIn(T.VerifiedWrites(heads)), k) == Flatten(MatchRows(heads, k))
    ensures EventsOf(CallsIn(T.VerifiedWrites(heads)), k) == Flatten(CallRows(heads, k))
  {
    if heads == [] {
    } else {
      var n := |heads| - 1;
      var front, last := T.VerifiedWrites(heads[..n]), WritesOf(heads[n]);
      RowsFlatten(heads[..n], k);
      InAppend(front, last);
      EventsAppend(MatchesIn(front), MatchesIn(last), k);
      EventsAppend(CallsIn(front), CallsIn(last), k);
      assert MatchRows(heads, k)[..n] == MatchRows(heads[..n], k) && CallRows(heads, k)[..n] == CallRows(heads[..n], k);
    }
  }

  /** Of the heads that hold rows, the i-th has the greatest batch sequence number, and the greatest action index among
      those of that number. */
  ghost predicate Greatest<E>(heads: Heads, rs: seq<seq<E>>, i: nat) {
    && |rs| == |heads| && i < |heads| && rs[i] != []
    && forall j :: 0 <= j < |heads| && j != i && rs[j] != [] ==>
         heads[j].batchSeq < heads[i].batchSeq ||
         (heads[j].batchSeq == heads[i].batchSeq && heads[j].actionIndex < heads[i].actionIndex)
  }

  /** In replay order the last row is then that head's last one. */
  lemma {:induction false} LastRow<E>(heads: Heads, rs: seq<seq<E>>, i: nat)
    requires T.Ordered(heads) && Greatest(heads, rs, i)
    ensures var all := Flatten(rs); all != [] && all[|all| - 1] == rs[i][|rs[i]| - 1]
  {
    var n := |heads| - 1;
    if i < n {
      assert T.Before(heads[i], heads[n]) && rs[n] == [];
      LastRow(heads[..n], rs[..n], i);
    }
  }

  /** A key's status after a replay is that of its last row. */
  lemma LastStatus<X, Y>(t: Table<X, Y>, log: seq<Entry<X, Y>>, k: string, es: seq<Event<X, Y>>)
    requires es == EventsOf(log, k) && es != []
    ensures k in ReplayTable(t, log) && ReplayTable(t, log)[k].status == es[|es| - 1].status
  {
    TableByKey(t, log, k);
    ContentForm(Lookup(t, k), es);
  }

  lemma MatchesAfterPass(st: State, heads: Heads, fs: seq<T.Faults>, k: string, rs: seq<seq<Event<MatchTerms, MatchTiming>>>)
    requires T.MirrorsLand(heads, fs) && rs == MatchRows(heads, k) && Flatten(rs) != []
    ensures var matches := T.Pass(Put, st, heads, fs, T.TRANSACTIONAL).store.mirror.matches;
            k in matches && matches[k].status == Flatten(rs)[|Flatten(rs)| - 1].status
  {
    var ws := T.VerifiedWrites(heads);
    RowsFlatten(heads, k);
    LastStatus(st.mirror.matches, MatchesIn(ws), k, Flatten(rs));
    T.PassMirrors(Put, st, heads, fs);
    MatchesReplayed(st.mirror, ws);
  }

  lemma CallsAfterPass(st: State, heads: Heads, fs: seq<T.Faults>, k: string, rs: seq<seq<Event<int, CallContent>>>)
    requires T.MirrorsLand(heads, fs) && rs == CallRows(heads, k) && Flatten(rs) != []
    ensures var calls := T.Pass(Put, st, heads, fs, T.TRANSACTIONAL).store.mirror.calls;
            k in calls && calls[k].status == Flatten(rs)[|Flatten(rs)| - 1].status
  {
    var ws := T.VerifiedWrites(heads);
    RowsFlatten(heads, k);
    LastStatus(st.mirror.calls, CallsIn(ws), k, Flatten(rs));
    T.PassMirrors(Put, st, heads, fs);
    CallsReplayed(st.mirror, ws);
  }

  /** After a pass a match has the status of the last row the head with the greatest (match_batch_seq, action_index)
      holds of it, whatever was stored before. */
  lemma GreatestHeadDecides(st: State, heads: Heads, fs: seq<T.Faults>, k: string,
                            rs: seq<seq<Event<MatchTerms, MatchTiming>>>, i: nat)
    requires T.Ordered(heads) && T.MirrorsLand(heads, fs) && rs == MatchRows(heads, k) && Greatest(heads, rs, i)
    ensures heads[i].verifies && rs[i] == EventsOf(MatchesIn(heads[i].writes), k)
    ensures var matches := T.Pass(Put, st, heads, fs, T.TRANSACTIONAL).store.mirror.matches;
            k in matches && matches[k].status == rs[i][|rs[i]| - 1].status
  {
    LastRow(heads, rs, i);
    MatchesAfterPass(st, heads, fs, k, rs);
  }

  /** So does a call. */
  lemma GreatestHeadDecidesCall(st: State, heads: Heads, fs: seq<T.Faults>, k: string,
                                rs: seq<seq<Event<int, CallContent>>>, i: nat)
    requires T.Ordered(heads) && T.MirrorsLand(heads, fs) && rs == CallRows(heads, k) && Greatest(heads, rs, i)
    ensures heads[i].verifies && rs[i] == EventsOf(CallsIn(heads[i].writes), k)
    ensures var calls := T.Pass(Put, st, heads, fs, T.TRANSACTIONAL).store.mirror.calls;
            k in calls && calls[k].status == rs[i][|rs[i]| - 1].status
  {
    LastRow(heads, rs, i);
    CallsAfterPass(st, heads, fs, k, rs);
  }

  /** Running the tool again over the same heads, whatever fails, changes no mirror row but stages every landed
      reward again: the staging table has no key to refuse the second copy. */
  lemma RerunStagesAgain(st: State, heads: Heads, fs: seq<T.Faults>, gs: seq<T.Faults>)
    requires T.MirrorsLand(heads, fs) && T.MirrorsLand(heads, gs)
    ensures var once := T.Pass(Put, st, heads, fs, T.TRANSACTIONAL).store;
            var twice := T.Pass(Put, once, heads, gs, T.TRANSACTIONAL).store;
            twice == T.Store(once.mirror, st.staged + T.StagedBy(heads, fs) + T.StagedBy(heads, gs))
  {
    AlwaysIdempotent(T.VerifiedWrites(heads));
    T.SecondPass(Put, st, heads, fs, gs);
  }
}
