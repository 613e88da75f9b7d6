/** The walk of bin/ci_fast_select.js from changed support files to the tests that reach them. */
module SupportTests {
  import opened Sets
  import R = Reachability

  type File = R.File

  /** Which files name which, and how the file names classify. */
  datatype Naming = Naming(users: map<File, seq<File>>, existing: set<File>, owned: File -> bool, test: File -> bool,
                           support: File -> bool, outside: File -> bool)

  /** The files that name f, itself left out. */
  function Users(n: Naming, f: File): seq<File> { if f in n.users then Others(n.users[f], f) else [] }

  function Others(s: seq<File>, f: File): (r: seq<File>)
    ensures forall u :: u in r <==> u in s && u != f
  {
    if s == [] then [] else (if s[0] == f then [] else [s[0]]) + Others(s[1..], f)
  }

  /** No user, or one outside the tests: the change cannot be narrowed. */
  ghost predicate Widens(n: Naming, f: File) {
    Users(n, f) == [] || exists u :: u in Users(n, f) && n.outside(u)
  }

  /** The walk goes on from f to u. */
  ghost predicate WalksTo(n: Naming, f: File, u: File) {
    !Widens(n, f) && u in Users(n, f) && !n.owned(u) && !n.test(u) && n.support(u)
  }

  ghost predicate Closed(n: Naming, start: seq<File>, s: set<File>) {
    && (forall f :: f in start ==> f in s)
    && (forall f, u :: f in s && WalksTo(n, f, u) ==> u in s)
  }

  /** In every set that holds the start and is closed under the walk. */
  ghost predicate Reached(n: Naming, start: seq<File>, f: File) {
    forall s :: Closed(n, start, s) ==> f in s
  }

  /** Some reached file that does not widen is named by u. */
  ghost predicate Meets(n: Naming, start: seq<File>, u: File) {
    exists f :: Reached(n, start, f) && !Widens(n, f) && u in Users(n, f)
  }

  /** The walk's result so far. */
  datatype Walk = Walk(selected: set<File>, deferred: set<File>, widening: set<File>, seen: set<File>, queue: seq<File>)

  /** Takes the users of a file that does not widen. */
  method TakeUsers(n: Naming, f: File, w: Walk) returns (r: Walk)
    ensures Taken(n, f, w, r) && (r.seen == w.seen ==> r.queue == w.queue)
  {
    r := w;
    var users := Users(n, f);
    for i := 0 to |users|
      invariant r.widening == w.widening
      invariant forall u :: u in r.selected <==> u in w.selected || (u in users[..i] && n.owned(u) && u in n.existing)
      invariant forall u :: u in r.deferred <==> u in w.deferred || (u in users[..i] && !n.owned(u) && n.test(u))
      invariant forall u :: u in r.seen <==> u in w.seen || (u in users[..i] && !n.owned(u) && !n.test(u) && n.support(u))
      invariant Elements(r.queue) == Elements(w.queue) + (r.seen - w.seen)
      invariant w.seen <= r.seen && (r.seen == w.seen ==> r.queue == w.queue)
    {
      var user := users[i];
      assert forall u :: u in users[..i + 1] <==> u in users[..i] || u == user;
      if n.owned(user) {
        if user in n.existing { r := r.(selected := r.selected + {user}); }
      } else if n.test(user) {
        r := r.(deferred := r.deferred + {user});
      } else if n.support(user) && user !in r.seen {
        assert Elements(r.queue + [user]) == Elements(r.queue) + {user};
        r := r.(seen := r.seen + {user}, queue := r.queue + [user]);
      }
    }
    assert users[..|users|] == users;
  }

  method NamedOutside(n: Naming, users: seq<File>) returns (r: bool)
    ensures r <==> exists u :: u in users && n.outside(u)
  {
    for i := 0 to |users|
      invariant forall u :: u in users[..i] ==> !n.outside(u)
    {
      if n.outside(users[i]) { return true; }
    }
    return false;
  }

  // ---- The walk ----

  /** Everything the walk can meet. */
  function Universe(n: Naming, start: seq<File>): set<File> {
    Elements(start) + set f, u | f in n.users && u in n.users[f] :: u
  }

  /** Some finished file that does not widen is named by u. */
  ghost predicate MetBy(n: Naming, done: set<File>, u: File) {
    exists f :: f in done && !Widens(n, f) && u in Users(n, f)
  }

  ghost predicate Frontier(n: Naming, start: seq<File>, done: set<File>, w: Walk) {
    && w.seen == done + Elements(w.queue) && w.seen <= Universe(n, start)
    && (forall f :: f in start ==> f in w.seen)
    && (forall f :: f in w.seen ==> Reached(n, start, f))
    && (forall f, u :: f in done && WalksTo(n, f, u) ==> u in w.seen)
  }

  ghost predicate Recorded(n: Naming, done: set<File>, first: set<File>, w: Walk) {
    && (forall u :: u in w.selected <==> u in first || (n.owned(u) && u in n.existing && MetBy(n, done, u)))
    && (forall u :: u in w.deferred <==> !n.owned(u) && n.test(u) && MetBy(n, done, u))
    && (forall f :: f in w.widening <==> f in done && Widens(n, f))
  }

  lemma WalkReaches(n: Naming, start: seq<File>, f: File, u: File)
    requires Reached(n, start, f) && WalksTo(n, f, u)
    ensures Reached(n, start, u) && u in Universe(n, start)
  {
  }

  /** One finished file more. */
  lemma MetByMore(n: Naming, done: set<File>, f: File, u: File)
    ensures MetBy(n, done + {f}, u) <==> MetBy(n, done, u) || (!Widens(n, f) && u in Users(n, f))
  {
    if MetBy(n, done, u) {
      var g :| g in done && !Widens(n, g) && u in Users(n, g);
      assert g in done + {f};
    }
    if !Widens(n, f) && u in Users(n, f) { assert f in done + {f}; }
  }

  /** A file that widens adds only itself. */
  lemma WidenStep(n: Naming, start: seq<File>, done: set<File>, first: set<File>, w: Walk, f: File, rest: seq<File>)
    requires Frontier(n, start, done, w) && Recorded(n, done, first, w) && Widens(n, f)
    requires Elements(w.queue) == Elements(rest) + {f}
    ensures Frontier(n, start, done + {f}, w.(widening := w.widening + {f}, queue := rest))
    ensures Recorded(n, done + {f}, first, w.(widening := w.widening + {f}, queue := rest))
  {
    forall u { MetByMore(n, done, f, u); }
  }

  /** What taking the users of f adds. */
  ghost predicate Taken(n: Naming, f: File, w: Walk, r: Walk) {
    && r.widening == w.widening
    && (forall u :: u in r.selected <==> u in w.selected || (u in Users(n, f) && n.owned(u) && u in n.existing))
    && (forall u :: u in r.deferred <==> u in w.deferred || (u in Users(n, f) && !n.owned(u) && n.test(u)))
    && (forall u :: u in r.seen <==> u in w.seen || (u in Users(n, f) && !n.owned(u) && !n.test(u) && n.support(u)))
    && Elements(r.queue) == Elements(w.queue) + (r.seen - w.seen)
  }

  lemma TakeFrontier(n: Naming, start: seq<File>, done: set<File>, w: Walk, f: File, rest: seq<File>, r: Walk)
    requires Frontier(n, start, done, w) && !Widens(n, f)
    requires Elements(w.queue) == Elements(rest) + {f} && Taken(n, f, w.(queue := rest), r)
    ensures Frontier(n, start, done + {f}, r)
  {
    forall u | u in r.seen ensures Reached(n, start, u) && u in Universe(n, start) {
      if u !in w.seen { WalkReaches(n, start, f, u); }
    }
  }

  lemma TakeRecorded(n: Naming, done: set<File>, first: set<File>, w: Walk, f: File, r: Walk)
    requires Recorded(n, done, first, w) && !Widens(n, f) && Taken(n, f, w, r)
    ensures Recorded(n, done + {f}, first, r)
  {
    forall u { MetByMore(n, done, f, u); }
  }

  lemma Shifted(queue: seq<File>)
    requires queue != []
    ensures Elements(queue) == Elements(queue[1..]) + {queue[0]}
  {
  }

  /** Seeing more of a set leaves less of it. */
  lemma SeenMore(all: set<File>, was: set<File>, seen: set<File>)
    requires was <= seen <= all
    ensures |all - seen| < |all - was| || seen == was
  {
    SubsetSize(all - seen, all - was);
    if all - seen == all - was {
      assert seen == all - (all - seen) && was == all - (all - was);
    }
  }

  /** Takes the first file off the queue. */
  method Visit(n: Naming, ghost start: seq<File>, ghost first: set<File>, ghost done: set<File>,
               w: Walk) returns (r: Walk)
    requires Frontier(n, start, done, w) && Recorded(n, done, first, w) && w.queue != []
    ensures Frontier(n, start, done + {w.queue[0]}, r) && Recorded(n, done + {w.queue[0]}, first, r)
    ensures |Universe(n, start) - r.seen| < |Universe(n, start) - w.seen| || (r.seen == w.seen && |r.queue| < |w.queue|)
  {
    var file, rest := w.queue[0], w.queue[1..];
    Shifted(w.queue);
    var users := Users(n, file);
    var outside := NamedOutside(n, users);
    if users == [] || outside {
      WidenStep(n, start, done, first, w, file, rest);
      r := w.(widening := w.widening + {file}, queue := rest);
    } else {
      r := TakeUsers(n, file, w.(queue := rest));
      TakeFrontier(n, start, done, w, file, rest, r);
      TakeRecorded(n, done, first, w.(queue := rest), file, r);
      SeenMore(Universe(n, start), w.seen, r.seen);
    }
  }

  lemma FirstFrontier(n: Naming, start: seq<File>, first: set<File>)
    ensures Frontier(n, start, {}, Walk(first, {}, {}, Elements(start), start))
    ensures Recorded(n, {}, first, Walk(first, {}, {}, Elements(start), start))
  {
  }

  method AddSupportTests(n: Naming, supportFiles: seq<File>, first: set<File>)
    returns (widen: bool, selected: set<File>, deferred: set<File>, widening: set<File>)
    ensures widen <==> widening != {}
    ensures forall f :: f in widening <==> Reached(n, supportFiles, f) && Widens(n, f)
    ensures forall u :: u in selected <==> u in first || (n.owned(u) && u in n.existing && Meets(n, supportFiles, u))
    ensures forall u :: u in deferred <==> !n.owned(u) && n.test(u) && Meets(n, supportFiles, u)
  {
    var w := Walk(first, {}, {}, Elements(supportFiles), supportFiles);
    ghost var done: set<File> := {};
    FirstFrontier(n, supportFiles, first);
    while w.queue != []
      invariant Frontier(n, supportFiles, done, w) && Recorded(n, done, first, w)
      decreases |Universe(n, supportFiles) - w.seen|, |w.queue|
    {
      ghost var was := w;
      w := Visit(n, supportFiles, first, done, w);
      done := done + {was.queue[0]};
    }
    Conclude(n, supportFiles, first, done, w);
    return w.widening != {}, w.selected, w.deferred, w.widening;
  }

  lemma Conclude(n: Naming, start: seq<File>, first: set<File>, done: set<File>, w: Walk)
    requires Frontier(n, start, done, w) && Recorded(n, done, first, w) && w.queue == []
    ensures forall f :: f in w.widening <==> Reached(n, start, f) && Widens(n, f)
    ensures forall u :: u in w.selected <==> u in first || (n.owned(u) && u in n.existing && Meets(n, start, u))
    ensures forall u :: u in w.deferred <==> !n.owned(u) && n.test(u) && Meets(n, start, u)
  {
    ReachedIsDone(n, start, done, w);
    forall u { MetIsMeets(n, start, done, u); }
  }

  lemma ReachedIsDone(n: Naming, start: seq<File>, done: set<File>, w: Walk)
    requires Frontier(n, start, done, w) && w.queue == []
    ensures forall f :: f in done <==> Reached(n, start, f)
  {
    assert w.seen == done;
    assert Closed(n, start, done);
  }

  lemma MetIsMeets(n: Naming, start: seq<File>, done: set<File>, u: File)
    requires forall f :: f in done <==> Reached(n, start, f)
    ensures MetBy(n, done, u) <==> Meets(n, start, u)
  {
  }
}
