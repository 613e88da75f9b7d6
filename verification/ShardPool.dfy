/** The bounded pool of shard workers (runShards in bin/ci_shard.js), as a state machine over the interleavings of its
    workers: a worker that is ready takes the next shard or finishes, and a shard process closes when it likes.
 */
module ShardPool {
  import opened Shards

  datatype Worker = Ready | Busy(shard: nat) | Finished

  datatype Outcome = Pending | Closed(ok: bool)

  /** `spawned` lists the shards whose process was started, in order. */
  datatype State = State(next: nat, active: nat, completed: nat, workers: seq<Worker>, results: seq<Outcome>, spawned: seq<nat>)

  datatype Event = Turn(worker: nat) | Close(worker: nat, ok: bool)

  function WorkerTotal(jobs: nat, shards: nat): nat { Max(1, Min(jobs, shards)) }

  function Initial(jobs: nat, shards: nat): State {
    State(0, 0, 0, seq(WorkerTotal(jobs, shards), _ => Ready), seq(shards, _ => Pending), [])
  }

  predicate Enabled(s: State, e: Event) {
    && e.worker < |s.workers|
    && match e
       case Turn(w) => s.workers[w].Ready?
       case Close(w, _) => s.workers[w].Busy? && s.workers[w].shard < |s.results| && s.active > 0
  }

  function Step(s: State, e: Event): State
    requires Enabled(s, e)
  {
    match e
    case Turn(w) =>
      if s.next < |s.results| then
        s.(next := s.next + 1, active := s.active + 1, workers := s.workers[w := Busy(s.next)], spawned := s.spawned + [s.next])
      else s.(workers := s.workers[w := Finished])
    case Close(w, ok) =>
      s.(active := s.active - 1, completed := s.completed + 1, workers := s.workers[w := Ready],
         results := s.results[s.workers[w].shard := Closed(ok)])
  }

  /** The events can happen one after the other. */
  ghost predicate Runs(s: State, events: seq<Event>)
    decreases |events|
  {
    events == [] || (Enabled(s, events[0]) && Runs(Step(s, events[0]), events[1..]))
  }

  ghost function After(s: State, events: seq<Event>): State
    requires Runs(s, events)
    decreases |events|
  {
    if events == [] then s else After(Step(s, events[0]), events[1..])
  }

  // ---- Counting ----

  function Count<T>(p: T -> bool, s: seq<T>): (n: nat)
    ensures n <= |s|
  {
    if s == [] then 0 else (if p(s[0]) then 1 else 0) + Count(p, s[1..])
  }

  lemma {:induction false} CountUpdate<T>(p: T -> bool, s: seq<T>, i: nat, x: T)
    requires i < |s|
    ensures Count(p, s[i := x]) == Count(p, s) - (if p(s[i]) then 1 else 0) + (if p(x) then 1 else 0)
  {
    if i == 0 {
      assert s[i := x][1..] == s[1..];
    } else {
      assert s[i := x][1..] == s[1..][i - 1 := x];
      CountUpdate(p, s[1..], i - 1, x);
    }
  }

  lemma {:induction false} CountNone<T>(p: T -> bool, s: seq<T>)
    ensures Count(p, s) == 0 <==> forall i :: 0 <= i < |s| ==> !p(s[i])
    ensures Count(p, s) == |s| <==> forall i :: 0 <= i < |s| ==> p(s[i])
  {
    if s == [] {
    } else {
      CountNone(p, s[1..]);
    }
  }

  // ---- What every step keeps ----

  predicate IsBusy(w: Worker) { w.Busy? }

  predicate IsClosed(r: Outcome) { r.Closed? }

  predicate IsFinished(w: Worker) { w.Finished? }

  /** Shards below `next` are running under one worker or closed; the others were not touched. */
  ghost predicate Tracked(s: State) {
    && (forall w :: 0 <= w < |s.workers| && s.workers[w].Busy? ==>
          s.workers[w].shard < s.next && s.workers[w].shard < |s.results| && s.results[s.workers[w].shard].Pending?)
    && (forall v, w :: 0 <= v < w < |s.workers| && s.workers[v].Busy? && s.workers[w].Busy? ==>
          s.workers[v].shard != s.workers[w].shard)
    && (forall i :: s.next <= i < |s.results| ==> s.results[i].Pending?)
  }

  /** The counters count, shards are spawned in order, and a worker finishes only when no shard is left. */
  ghost predicate Counted(s: State) {
    && s.next <= |s.results|
    && s.active == Count(IsBusy, s.workers)
    && s.completed == Count(IsClosed, s.results)
    && s.next == s.active + s.completed
    && |s.spawned| == s.next && (forall i :: 0 <= i < s.next ==> s.spawned[i] == i)
    && (Count(IsFinished, s.workers) > 0 ==> s.next == |s.results|)
  }

  lemma InitialCounted(jobs: nat, shards: nat)
    ensures Tracked(Initial(jobs, shards)) && Counted(Initial(jobs, shards))
  {
    var s := Initial(jobs, shards);
    CountNone(IsBusy, s.workers);
    CountNone(IsFinished, s.workers);
    CountNone(IsClosed, s.results);
  }

  lemma StepTracked(s: State, e: Event)
    requires Tracked(s) && Counted(s) && Enabled(s, e)
    ensures Tracked(Step(s, e))
  {
  }

  lemma StepCounted(s: State, e: Event)
    requires Tracked(s) && Counted(s) && Enabled(s, e)
    ensures Counted(Step(s, e))
  {
    var t := Step(s, e);
    CountUpdate(IsBusy, s.workers, e.worker, t.workers[e.worker]);
    CountUpdate(IsFinished, s.workers, e.worker, t.workers[e.worker]);
    if e.Close? {
      CountUpdate(IsClosed, s.results, s.workers[e.worker].shard, Closed(e.ok));
    }
  }

  lemma {:induction false} RunKeeps(s: State, events: seq<Event>)
    requires Tracked(s) && Counted(s) && Runs(s, events)
    ensures Tracked(After(s, events)) && Counted(After(s, events))
    ensures |After(s, events).workers| == |s.workers| && |After(s, events).results| == |s.results|
    decreases |events|
  {
    if events == [] {
    } else {
      StepTracked(s, events[0]);
      StepCounted(s, events[0]);
      RunKeeps(Step(s, events[0]), events[1..]);
    }
  }

  /** As many workers as jobs and shards allow, and at least one. */
  lemma WorkerTotalIs(jobs: nat, shards: nat, n: nat)
    ensures n <= WorkerTotal(jobs, shards) <==> n <= 1 || (n <= jobs && n <= shards)
  {
  }

  /** In every state of every run no more shards run than there are shards, nor, but for one, than jobs were asked for,
      and each shard was started at most once. */
  lemma PoolIsBounded(jobs: nat, shards: nat, events: seq<Event>)
    requires Runs(Initial(jobs, shards), events)
    ensures var s := After(Initial(jobs, shards), events);
            && s.active <= shards && (s.active <= jobs || s.active <= 1)
            && forall i :: 0 <= i < |s.spawned| ==> s.spawned[i] == i < shards
  {
    InitialCounted(jobs, shards);
    RunKeeps(Initial(jobs, shards), events);
    WorkerTotalIs(jobs, shards, After(Initial(jobs, shards), events).active);
  }

  lemma {:induction false} StartMore(s: State, w: nat, n: nat) returns (events: seq<Event>)
    requires w + n <= |s.workers| && s.next + n <= |s.results|
    requires forall v :: w <= v < |s.workers| ==> s.workers[v].Ready?
    ensures Runs(s, events) && After(s, events).active == s.active + n
    decreases n
  {
    events := [];
    if n > 0 {
      var more := StartMore(Step(s, Turn(w)), w + 1, n - 1);
      events := [Turn(w)] + more;
      assert events[1..] == more;
    }
  }

  /** And any number of shards within that bound does run at once in some run. */
  lemma BoundReached(jobs: nat, shards: nat, n: nat) returns (events: seq<Event>)
    requires n <= shards && (n <= jobs || n <= 1)
    ensures Runs(Initial(jobs, shards), events) && After(Initial(jobs, shards), events).active == n
  {
    WorkerTotalIs(jobs, shards, n);
    events := StartMore(Initial(jobs, shards), 0, n);
  }

  // ---- Every run ends ----

  /** Starts, closes and finished workers so far. */
  function Work(s: State): nat { s.next + s.completed + Count(IsFinished, s.workers) }

  lemma StepWorks(s: State, e: Event)
    requires Tracked(s) && Counted(s) && Enabled(s, e)
    ensures Work(Step(s, e)) == Work(s) + 1
  {
    CountUpdate(IsFinished, s.workers, e.worker, Step(s, e).workers[e.worker]);
  }

  lemma {:induction false} RunWorks(s: State, events: seq<Event>)
    requires Tracked(s) && Counted(s) && Runs(s, events)
    ensures Work(After(s, events)) == Work(s) + |events|
    decreases |events|
  {
    if events == [] {
    } else {
      StepTracked(s, events[0]);
      StepCounted(s, events[0]);
      StepWorks(s, events[0]);
      RunWorks(Step(s, events[0]), events[1..]);
    }
  }

  ghost predicate AllFinished(s: State) {
    forall w :: 0 <= w < |s.workers| ==> s.workers[w].Finished?
  }

  /** Until every worker is finished, something can happen: a ready worker turns, or a running shard closes. */
  lemma NoDeadlock(s: State)
    requires Tracked(s) && Counted(s) && !AllFinished(s)
    ensures exists e :: Enabled(s, e)
  {
    var w :| 0 <= w < |s.workers| && !s.workers[w].Finished?;
    CountNone(IsBusy, s.workers);
    if s.workers[w].Ready? {
      assert Enabled(s, Turn(w));
    } else {
      assert IsBusy(s.workers[w]);
      assert Enabled(s, Close(w, true));
    }
  }

  lemma FinishedIsComplete(s: State)
    requires Tracked(s) && Counted(s) && AllFinished(s) && s.workers != []
    ensures s.active == 0 && s.next == |s.results| && s.completed == |s.results|
    ensures forall i :: 0 <= i < |s.results| ==> s.results[i].Closed?
    ensures Work(s) == 2 * |s.results| + |s.workers|
  {
    CountNone(IsBusy, s.workers);
    CountNone(IsFinished, s.workers);
    CountNone(IsClosed, s.results);
  }

  // ---- The verdict ----

  ghost predicate NoFailure(s: State) {
    forall i :: 0 <= i < |s.results| ==> s.results[i] != Closed(false)
  }

  ghost predicate Fails(e: Event) { e.Close? && !e.ok }

  lemma StepFailure(s: State, e: Event)
    requires Tracked(s) && Enabled(s, e)
    ensures NoFailure(Step(s, e)) <==> NoFailure(s) && !Fails(e)
  {
    var t := Step(s, e);
    if e.Close? {
      var i := s.workers[e.worker].shard;
      assert t.results[i] == Closed(e.ok) && s.results[i].Pending?;
      assert forall k :: 0 <= k < |s.results| && k != i ==> t.results[k] == s.results[k];
    }
  }

  lemma {:induction false} RunFailure(s: State, events: seq<Event>)
    requires Tracked(s) && Counted(s) && Runs(s, events)
    ensures NoFailure(After(s, events)) <==> NoFailure(s) && forall i :: 0 <= i < |events| ==> !Fails(events[i])
    decreases |events|
  {
    if events == [] {
    } else {
      StepTracked(s, events[0]);
      StepCounted(s, events[0]);
      StepFailure(s, events[0]);
      RunFailure(Step(s, events[0]), events[1..]);
      assert (forall i :: 0 <= i < |events| ==> !Fails(events[i])) <==>
             !Fails(events[0]) && forall i :: 0 <= i < |events[1..]| ==> !Fails(events[1..][i]);
    }
  }

  /** What runShards returns: every shard closed without failure. */
  predicate Result(s: State) { forall i :: 0 <= i < |s.results| ==> s.results[i] == Closed(true) }

  /** No run takes more than 2 * shards + workers events. One in which nothing more can happen took exactly that many,
      has started each shard once and closed it, and its result is true exactly when no shard failed. */
  lemma EveryRunEnds(jobs: nat, shards: nat, events: seq<Event>)
    requires Runs(Initial(jobs, shards), events)
    ensures |events| <= 2 * shards + WorkerTotal(jobs, shards)
    ensures var s := After(Initial(jobs, shards), events);
            (forall e :: !Enabled(s, e)) ==>
              && |events| == 2 * shards + WorkerTotal(jobs, shards)
              && |s.spawned| == shards && (forall i :: 0 <= i < shards ==> s.spawned[i] == i)
              && (Result(s) <==> forall i :: 0 <= i < |events| ==> !Fails(events[i]))
  {
    var first := Initial(jobs, shards);
    var s := After(first, events);
    InitialCounted(jobs, shards);
    RunKeeps(first, events);
    RunWorks(first, events);
    RunFailure(first, events);
    assert Work(first) == 0 by { CountNone(IsFinished, first.workers); }
    if forall e :: !Enabled(s, e) {
      if !AllFinished(s) { NoDeadlock(s); }
      FinishedIsComplete(s);
      assert Result(s) <==> NoFailure(s) by {
        assert forall i :: 0 <= i < |s.results| ==> (s.results[i] == Closed(true) <==> s.results[i] != Closed(false));
      }
    }
  }

  // ---- The files given to processes ----

  /** The files given to the started processes, in order of start. */
  function Given(shards: seq<seq<string>>, spawned: seq<nat>): seq<string>
    requires forall i :: 0 <= i < |spawned| ==> spawned[i] < |shards|
  {
    if spawned == [] then [] else shards[spawned[0]] + Given(shards, spawned[1..])
  }

  lemma {:induction false} GivenInOrder(shards: seq<seq<string>>, spawned: seq<nat>, from: nat)
    requires |spawned| == |shards| - from && forall i :: 0 <= i < |spawned| ==> spawned[i] == from + i
    ensures Given(shards, spawned) == Flat(shards[from..])
    decreases |spawned|
  {
    if spawned == [] {
    } else {
      assert shards[from..][1..] == shards[from + 1..];
      GivenInOrder(shards, spawned[1..], from + 1);
    }
  }

  /** In every complete run each file of the list is given to a process exactly as often as it is listed. */
  lemma EveryFileRuns(files: seq<string>, n: nat, jobs: nat, events: seq<Event>)
    requires n > 0 && Runs(Initial(jobs, n), events) && forall e :: !Enabled(After(Initial(jobs, n), events), e)
    ensures var spawned := After(Initial(jobs, n), events).spawned;
            (forall i :: 0 <= i < |spawned| ==> spawned[i] < n) && multiset(Given(Deal(files, n), spawned)) == multiset(files)
  {
    var s := After(Initial(jobs, n), events);
    EveryRunEnds(jobs, n, events);
    GivenInOrder(Deal(files, n), s.spawned, 0);
    assert Deal(files, n)[0..] == Deal(files, n);
    DealPartitions(files, n);
  }
}
