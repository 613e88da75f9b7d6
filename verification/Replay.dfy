/** How recovery rebuilds the mirror tables from verified batches.

    A match and a call follow one rule per key. The first archived row of a key is inserted
    whole. A later 'finalized' row upgrades the content the hub can move (a match's
    effective_time, view and signatures; every non-key column of a call) and a later row of
    any other status moves the status alone. A match row is also stamped with the anchor
    transaction id, first stamp wins; a call carries no stamp, so its events have txid None.
    `T` is the part a row keeps from its insert, `C` the part a finalized row replaces.
 */
module Replay {
  import opened Options

  function Coalesce<X>(a: Option<X>, b: Option<X>): Option<X> {
    if a.Some? then a else b
  }

  datatype Admit = Admit(btc: Option<int>, ltc: Option<int>, doge: Option<int>)

  const NO_ADMIT := Admit(None, None, None)

  datatype Event<T, C> = Event(fixed: T, content: C, status: string, admit: Admit, txid: Option<string>)
  {
    predicate Final() { status == "finalized" }
  }

  datatype Stored<T, C> = Stored(fixed: T, content: C, status: string, stamp: Option<string>, admit: Admit)

  /** One archived row applied to the stored row of its key, if any. */
  function Apply<T, C>(prior: Option<Stored<T, C>>, e: Event<T, C>): Stored<T, C> {
    match prior
    case None => Stored(e.fixed, e.content, e.status, e.txid, e.admit)
    case Some(r) =>
      if e.Final() then
        Stored(r.fixed, e.content, e.status, Coalesce(r.stamp, e.txid), if e.admit == NO_ADMIT then r.admit else e.admit)
      else
        r.(status := e.status, stamp := Coalesce(r.stamp, e.txid))
  }

  function Fold<T, C>(prior: Option<Stored<T, C>>, es: seq<Event<T, C>>): Option<Stored<T, C>> {
    if es == [] then prior else Some(Apply(Fold(prior, es[..|es| - 1]), es[|es| - 1]))
  }

  // ---- Closed form for one key ----

  ghost predicate LastFinal<T, C>(es: seq<Event<T, C>>, i: nat) {
    i < |es| && es[i].Final() && forall j :: i < j < |es| ==> !es[j].Final()
  }

  ghost predicate NoneFinal<T, C>(es: seq<Event<T, C>>) {
    forall i :: 0 <= i < |es| ==> !es[i].Final()
  }

  /** The i-th event writes admission heights. */
  predicate Admits<T, C>(prior: Option<Stored<T, C>>, es: seq<Event<T, C>>, i: nat)
    requires i < |es|
  {
    es[i].admit != NO_ADMIT && (es[i].Final() || (i == 0 && prior.None?))
  }

  ghost predicate LastAdmit<T, C>(prior: Option<Stored<T, C>>, es: seq<Event<T, C>>, i: nat) {
    i < |es| && Admits(prior, es, i) && forall j :: i < j < |es| ==> !Admits(prior, es, j)
  }

  ghost predicate NoneAdmits<T, C>(prior: Option<Stored<T, C>>, es: seq<Event<T, C>>) {
    forall i :: 0 <= i < |es| ==> !Admits(prior, es, i)
  }

  /** The i-th event is the first to carry a transaction id. */
  ghost predicate FirstStamped<T, C>(es: seq<Event<T, C>>, i: nat) {
    i < |es| && es[i].txid.Some? && forall j :: 0 <= j < i ==> es[j].txid.None?
  }

  ghost predicate NoneStamped<T, C>(es: seq<Event<T, C>>) {
    forall i :: 0 <= i < |es| ==> es[i].txid.None?
  }

  /** What a run of archived rows leaves for a key, whatever was stored before it: the inserted
      part, the last status, and the content of the last finalized row if there is one. */
  lemma {:induction false} ContentForm<T, C>(prior: Option<Stored<T, C>>, es: seq<Event<T, C>>)
    requires es != []
    ensures Fold(prior, es).Some?
    ensures var r := Fold(prior, es).value;
            && r.fixed == (if prior.Some? then prior.value.fixed else es[0].fixed)
            && r.status == es[|es| - 1].status
            && (forall i: nat :: LastFinal(es, i) ==> r.content == es[i].content)
            && (NoneFinal(es) ==> r.content == if prior.Some? then prior.value.content else es[0].content)
  {
    var k := |es| - 1;
    var front := es[..k];
    if front == [] {
      assert Fold(prior, front) == prior;
    } else {
      ContentForm(prior, front);
      assert forall i: nat :: LastFinal(es, i) && i < k ==> LastFinal(front, i);
      assert NoneFinal(es) ==> NoneFinal(front);
    }
  }

  /** A key that was not stored ends with the content of its last finalized row, or of its first if none is. */
  lemma FreshContent<T, C>(es: seq<Event<T, C>>, i: nat)
    requires LastFinal(es, i) || (es != [] && NoneFinal(es) && i == 0)
    ensures var r := Fold(None, es); r.Some? && r.value.status == es[|es| - 1].status && r.value.content == es[i].content
  {
    ContentForm(None, es);
  }

  /** The stamp is the first one offered, an already stored one counting as offered first. */
  lemma {:induction false} StampForm<T, C>(prior: Option<Stored<T, C>>, es: seq<Event<T, C>>)
    requires es != []
    ensures Fold(prior, es).Some?
    ensures var r := Fold(prior, es).value;
            && (prior.Some? && prior.value.stamp.Some? ==> r.stamp == prior.value.stamp)
            && (prior.None? || prior.value.stamp.None? ==>
                  && (forall i: nat :: FirstStamped(es, i) ==> r.stamp == es[i].txid)
                  && (NoneStamped(es) ==> r.stamp == None))
  {
    var k := |es| - 1;
    var front := es[..k];
    if front == [] {
      assert Fold(prior, front) == prior;
    } else {
      StampForm(prior, front);
      assert forall i: nat :: FirstStamped(es, i) && i < k ==> FirstStamped(front, i);
      assert forall i: nat :: FirstStamped(es, i) && i == k ==> NoneStamped(front);
      assert NoneStamped(es) ==> NoneStamped(front);
    }
  }

  lemma {:induction false} AdmitFrom<T, C>(prior: Option<Stored<T, C>>, es: seq<Event<T, C>>, i: nat)
    requires LastAdmit(prior, es, i)
    ensures Fold(prior, es).Some? && Fold(prior, es).value.admit == es[i].admit
  {
    var k := |es| - 1;
    var front := es[..k];
    if i < k {
      assert Admits(prior, front, i) && !Admits(prior, es, k);
      forall j | i < j < |front| ensures !Admits(prior, front, j) { assert !Admits(prior, es, j); }
      AdmitFrom(prior, front, i);
    }
  }

  lemma {:induction false} AdmitKept<T, C>(prior: Option<Stored<T, C>>, es: seq<Event<T, C>>)
    requires es != [] && NoneAdmits(prior, es)
    ensures Fold(prior, es).Some?
    ensures Fold(prior, es).value.admit == if prior.Some? then prior.value.admit else NO_ADMIT
  {
    var k := |es| - 1;
    var front := es[..k];
    assert !Admits(prior, es, k);
    if front == [] {
      assert Fold(prior, front) == prior;
    } else {
      forall j | 0 <= j < |front| ensures !Admits(prior, front, j) { assert !Admits(prior, es, j); }
      AdmitKept(prior, front);
    }
  }

  /** Admission heights come from the last inserted or finalized row that carries any. */
  lemma AdmitForm<T, C>(prior: Option<Stored<T, C>>, es: seq<Event<T, C>>)
    requires es != []
    ensures Fold(prior, es).Some?
    ensures var r := Fold(prior, es).value;
            && (forall i: nat :: LastAdmit(prior, es, i) ==> r.admit == es[i].admit)
            && (NoneAdmits(prior, es) ==> r.admit == if prior.Some? then prior.value.admit else NO_ADMIT)
  {
    forall i: nat | LastAdmit(prior, es, i) ensures Fold(prior, es).value.admit == es[i].admit { AdmitFrom(prior, es, i); }
    if NoneAdmits(prior, es) { AdmitKept(prior, es); }
  }

  // Either no event qualifies or one is the last (the first) that does.

  lemma {:induction false} SomeLastFinal<T, C>(es: seq<Event<T, C>>) returns (i: nat)
    ensures NoneFinal(es) || LastFinal(es, i)
  {
    i := 0;
    if es != [] {
      var k := |es| - 1;
      i := SomeLastFinal(es[..k]);
      if es[k].Final() { i := k; }
    }
  }

  lemma {:induction false} SomeLastAdmit<T, C>(prior: Option<Stored<T, C>>, es: seq<Event<T, C>>) returns (i: nat)
    ensures NoneAdmits(prior, es) || LastAdmit(prior, es, i)
  {
    i := 0;
    if es != [] {
      var k := |es| - 1;
      i := SomeLastAdmit(prior, es[..k]);
      assert forall j: nat | j < k :: Admits(prior, es[..k], j) == Admits(prior, es, j);
      if Admits(prior, es, k) { i := k; }
    }
  }

  lemma {:induction false} SomeFirstStamped<T, C>(es: seq<Event<T, C>>) returns (i: nat)
    ensures NoneStamped(es) || FirstStamped(es, i)
  {
    i := 0;
    if es != [] {
      var k := |es| - 1;
      i := SomeFirstStamped(es[..k]);
      if NoneStamped(es[..k]) && es[k].txid.Some? { i := k; }
    }
  }

  // ---- Re-runs ----

  /** Whatever two runs left behind, one full replay makes them agree on the status, and on the
      content once any archived row is finalized. */
  lemma {:induction false} ReplayForgetsThePast<T, C>(p: Option<Stored<T, C>>, q: Option<Stored<T, C>>,
                                        es: seq<Event<T, C>>)
    requires es != []
    ensures Fold(p, es).Some? && Fold(q, es).Some?
    ensures Fold(p, es).value.status == Fold(q, es).value.status
    ensures !NoneFinal(es) ==> Fold(p, es).value.content == Fold(q, es).value.content
  {
    ContentForm(p, es);
    ContentForm(q, es);
    var i := SomeLastFinal(es);
  }

  /** Replaying a batch a second time changes nothing, from any stored row. */
  lemma ReplayIdempotent<T, C>(p: Option<Stored<T, C>>, es: seq<Event<T, C>>)
    ensures Fold(Fold(p, es), es) == Fold(p, es)
  {
    if es != [] {
      var once := Fold(p, es);
      ContentForm(p, es);
      ContentForm(once, es);
      StampForm(p, es);
      StampForm(once, es);
      AdmitForm(p, es);
      AdmitForm(once, es);
      var i := SomeLastFinal(es);
      var j := SomeFirstStamped(es);
      var k := SomeLastAdmit(p, es);
      var l := SomeLastAdmit(once, es);
      if LastAdmit(once, es, l) {
        assert Admits(p, es, l) && LastAdmit(p, es, if k > l then k else l);
      }
    }
  }

  ghost predicate NoneFinalAdmits<T, C>(es: seq<Event<T, C>>) {
    forall i :: 0 <= i < |es| && es[i].Final() ==> es[i].admit == NO_ADMIT
  }

  function FirstTxid<T, C>(es: seq<Event<T, C>>): Option<string> {
    if es == [] then None else Coalesce(es[0].txid, FirstTxid(es[1..]))
  }

  lemma {:induction false} FirstTxidIs<T, C>(es: seq<Event<T, C>>)
    ensures NoneStamped(es) <==> FirstTxid(es) == None
    ensures forall i: nat :: FirstStamped(es, i) ==> FirstTxid(es) == es[i].txid
  {
    if es == [] {
    } else {
      FirstTxidIs(es[1..]);
      assert forall i: nat :: FirstStamped(es, i) && i > 0 ==> FirstStamped(es[1..], i - 1);
      assert forall i :: 0 <= i < |es| - 1 ==> es[1..][i] == es[i + 1];
    }
  }

  /** What an earlier run over some of a key's rows must have left for a later full run to
      reproduce the row of one clean run. */
  ghost predicate Resumable<T(!new), C(!new)>(sub: seq<Event<T, C>>, es: seq<Event<T, C>>)
    requires sub != [] && es != []
  {
    && sub[0].fixed == es[0].fixed
    && (NoneFinal(es) ==> sub[0].content == es[0].content)
    && (NoneFinalAdmits(es) ==> sub[0].admit == es[0].admit)
    && (FirstTxid(sub) == None || FirstTxid(sub) == FirstTxid(es))
  }

  lemma StampOf<T, C>(p: Option<Stored<T, C>>, es: seq<Event<T, C>>)
    requires es != []
    ensures Fold(p, es).Some?
    ensures Fold(p, es).value.stamp == Coalesce(if p.Some? then p.value.stamp else None, FirstTxid(es))
  {
    StampForm(p, es);
    FirstTxidIs(es);
    var i := SomeFirstStamped(es);
  }

  lemma {:induction false} AdmitOf<T, C>(p: Option<Stored<T, C>>, es: seq<Event<T, C>>)
    requires es != []
    ensures Fold(p, es).Some?
    ensures NoneFinalAdmits(es) ==> Fold(p, es).value.admit == if p.Some? then p.value.admit else es[0].admit
    ensures !NoneFinalAdmits(es) ==> forall q: Option<Stored<T, C>> :: Fold(q, es).Some? && Fold(q, es).value.admit == Fold(p, es).value.admit
  {
    AdmitForm(p, es);
    var i := SomeLastAdmit(p, es);
    if NoneFinalAdmits(es) {
      if p.None? && es[0].admit != NO_ADMIT { assert LastAdmit(p, es, 0); }
    } else {
      var f :| 0 <= f < |es| && es[f].Final() && es[f].admit != NO_ADMIT;
      forall q: Option<Stored<T, C>> ensures Fold(q, es).Some? && Fold(q, es).value.admit == Fold(p, es).value.admit {
        AdmitForm(q, es);
        var j := SomeLastAdmit(q, es);
        assert Admits(p, es, f) && Admits(q, es, f);
        assert i >= f && j >= f;
        if i != j { assert Admits(p, es, i) && Admits(q, es, j); }
      }
    }
  }

  /** A run over some of a key's rows followed by a full run ends in the row of one clean run
      EXACTLY when the partial run is resumable. */
  lemma PartialThenFullIff<T(!new), C(!new)>(sub: seq<Event<T, C>>, es: seq<Event<T, C>>)
    requires sub != [] && es != [] && forall e :: e in sub ==> e in es
    ensures Fold(Fold(None, sub), es) == Fold(None, es) <==> Resumable(sub, es)
  {
    var p := Fold(None, sub);
    ContentForm(None, sub);
    ContentForm(p, es);
    ContentForm(None, es);
    var i := SomeLastFinal(es);
    if NoneFinal(es) {
      forall j | 0 <= j < |sub| ensures !sub[j].Final() { assert sub[j] in es; }
    }
    StampOf(None, sub);
    StampOf(p, es);
    StampOf(None, es);
    AdmitOf(None, sub);
    AdmitOf(p, es);
    AdmitOf(None, es);
    if NoneFinalAdmits(es) {
      forall j | 0 <= j < |sub| && sub[j].Final() ensures sub[j].admit == NO_ADMIT { assert sub[j] in es; }
    }
  }

  // ---- Tables ----

  type Table<T, C> = map<string, Stored<T, C>>

  datatype Entry<T, C> = Entry(key: string, event: Event<T, C>)

  function Lookup<T, C>(t: Table<T, C>, k: string): Option<Stored<T, C>> {
    if k in t then Some(t[k]) else None
  }

  function ReplayTable<T, C>(t: Table<T, C>, log: seq<Entry<T, C>>): Table<T, C> {
    if log == [] then t
    else
      var n := |log| - 1;
      var u := ReplayTable(t, log[..n]);
      u[log[n].key := Apply(Lookup(u, log[n].key), log[n].event)]
  }

  function EventsOf<T, C>(log: seq<Entry<T, C>>, k: string): seq<Event<T, C>> {
    if log == [] then []
    else
      var n := |log| - 1;
      EventsOf(log[..n], k) + if log[n].key == k then [log[n].event] else []
  }

  /** Keys do not interact: a table replay is the fold of each key's own rows. */
  lemma {:induction false} TableByKey<T, C>(t: Table<T, C>, log: seq<Entry<T, C>>, k: string)
    ensures Lookup(ReplayTable(t, log), k) == Fold(Lookup(t, k), EventsOf(log, k))
  {
    if log == [] {
    } else {
      var n := |log| - 1;
      TableByKey(t, log[..n], k);
      if log[n].key == k {
        var es := EventsOf(log, k);
        assert es[..|es| - 1] == EventsOf(log[..n], k);
      } else {
        assert EventsOf(log, k) == EventsOf(log[..n], k);
      }
    }
  }

  lemma TablesEqual<T, C>(t: Table<T, C>, u: Table<T, C>)
    requires forall k :: Lookup(t, k) == Lookup(u, k)
    ensures t == u
  {
    assert forall k :: (k in t <==> Lookup(t, k).Some?) && (k in u <==> Lookup(u, k).Some?);
    assert forall k :: k in t ==> Lookup(t, k) == Some(t[k]) && Lookup(u, k) == Some(u[k]);
  }

  /** The mirror writes of a batch are idempotent: replaying them at once changes no row. */
  lemma TableIdempotent<T, C>(t: Table<T, C>, log: seq<Entry<T, C>>)
    ensures ReplayTable(ReplayTable(t, log), log) == ReplayTable(t, log)
  {
    var u := ReplayTable(t, log);
    forall k ensures Lookup(ReplayTable(u, log), k) == Lookup(u, k) {
      TableByKey(t, log, k);
      TableByKey(u, log, k);
      ReplayIdempotent(Lookup(t, k), EventsOf(log, k));
    }
    TablesEqual(ReplayTable(u, log), u);
  }

  /** After one full replay two nodes agree, key by key, on every archived status and on all content
      some archived row finalized, whatever earlier partial runs had left in their tables. */
  lemma {:induction false} TablesConverge<T, C>(t: Table<T, C>, u: Table<T, C>, log: seq<Entry<T, C>>, k: string)
    requires EventsOf(log, k) != []
    ensures k in ReplayTable(t, log) && k in ReplayTable(u, log)
    ensures ReplayTable(t, log)[k].status == ReplayTable(u, log)[k].status
    ensures !NoneFinal(EventsOf(log, k)) ==> ReplayTable(t, log)[k].content == ReplayTable(u, log)[k].content
  {
    TableByKey(t, log, k);
    TableByKey(u, log, k);
    ReplayForgetsThePast(Lookup(t, k), Lookup(u, k), EventsOf(log, k));
  }

  lemma {:induction false} ReplayOne<T, C>(t: Table<T, C>, log: seq<Entry<T, C>>, e: Entry<T, C>)
    ensures ReplayTable(t, log + [e]) ==
            ReplayTable(t, log)[e.key := Apply(Lookup(ReplayTable(t, log), e.key), e.event)]
  {
    assert (log + [e])[..|log|] == log;
  }
}
