/** The require graph of bin/reachability.js: resolution, closure, reverse edges and the deletion verdict. */
module Reachability {
  import opened Options
  import opened Sets

  datatype File = File(path: string)

  /** `literal[f]` holds, for each literal require in f, the candidate paths in the order they are tried;
      `dynamic[f]` the targets of the declared dynamic edges. */
  datatype Repo = Repo(disk: set<File>, tracked: set<File>, literal: map<File, seq<seq<File>>>, dynamic: map<File, seq<File>>)

  predicate IsScript(f: File) { |f.path| >= 3 && f.path[|f.path| - 3..] == ".js" }

  predicate IsTest(f: File) { |f.path| >= 5 && f.path[..5] == "test/" }

  predicate IsSource(f: File) { |f.path| >= 4 && f.path[..4] == "src/" }

  function Literals(repo: Repo, f: File): seq<seq<File>> { if f in repo.literal then repo.literal[f] else [] }

  function Dynamics(repo: Repo, f: File): seq<File> { if f in repo.dynamic then repo.dynamic[f] else [] }

  /** The first candidate that exists and is a script. */
  function Resolve(disk: set<File>, candidates: seq<File>): (r: Option<File>)
    ensures r.Some? ==> r.value in disk
  {
    if candidates == [] then None
    else if candidates[0] in disk && IsScript(candidates[0]) then Some(candidates[0])
    else Resolve(disk, candidates[1..])
  }

  lemma StartsIff(path: string, start: string)
    ensures |path| >= |start| && path[..|start|] == start <==> exists rest :: path == start + rest
  {
    if |path| >= |start| && path[..|start|] == start { assert path == start + path[|start|..]; }
  }

  lemma EndsIff(path: string, end: string)
    ensures |path| >= |end| && path[|path| - |end|..] == end <==> exists base :: path == base + end
  {
    if |path| >= |end| && path[|path| - |end|..] == end { assert path == path[..|path| - |end|] + end; }
  }

  /** What the three kinds of path look like. */
  lemma PathKinds(f: File)
    ensures IsScript(f) <==> exists base :: f.path == base + ".js"
    ensures IsTest(f) <==> exists rest :: f.path == "test/" + rest
    ensures IsSource(f) <==> exists rest :: f.path == "src/" + rest
  {
    EndsIff(f.path, ".js");
    StartsIff(f.path, "test/");
    StartsIff(f.path, "src/");
  }

  ghost predicate FirstScript(disk: set<File>, candidates: seq<File>, g: File, i: nat) {
    && i < |candidates| && candidates[i] == g && g in disk && IsScript(g)
    && forall j :: 0 <= j < i ==> candidates[j] !in disk || !IsScript(candidates[j])
  }

  /** A require resolves to a file exactly when it is an existing script among the candidates and none before it is. */
  lemma {:induction false} ResolveFirst(disk: set<File>, candidates: seq<File>, g: File)
    ensures Resolve(disk, candidates) == Some(g) <==> exists i: nat :: FirstScript(disk, candidates, g, i)
  {
    if candidates == [] {
    } else if candidates[0] in disk && IsScript(candidates[0]) {
      assert FirstScript(disk, candidates, candidates[0], 0);
    } else {
      ResolveFirst(disk, candidates[1..], g);
      forall i: nat ensures FirstScript(disk, candidates[1..], g, i) <==> FirstScript(disk, candidates, g, i + 1) {
        FirstScriptTail(disk, candidates, g, i);
      }
      if i: nat :| FirstScript(disk, candidates, g, i) { assert FirstScript(disk, candidates[1..], g, i - 1); }
    }
  }

  lemma FirstScriptTail(disk: set<File>, candidates: seq<File>, g: File, i: nat)
    requires candidates != [] && !(candidates[0] in disk && IsScript(candidates[0]))
    ensures FirstScript(disk, candidates[1..], g, i) <==> FirstScript(disk, candidates, g, i + 1)
  {
    var rest := candidates[1..];
    if FirstScript(disk, rest, g, i) {
      forall j | 0 <= j < i + 1 ensures candidates[j] !in disk || !IsScript(candidates[j]) {
        if j > 0 { assert rest[j - 1] == candidates[j]; }
      }
    }
    if FirstScript(disk, candidates, g, i + 1) {
      forall j | 0 <= j < i ensures rest[j] !in disk || !IsScript(rest[j]) { assert rest[j] == candidates[j + 1]; }
    }
  }

  ghost predicate Edge(repo: Repo, f: File, g: File) {
    && f in repo.disk && g in repo.tracked
    && (g in Dynamics(repo, f) || LiteralEdge(repo, f, g))
  }

  ghost predicate LiteralEdge(repo: Repo, f: File, g: File) {
    exists c :: c in Literals(repo, f) && Resolve(repo.disk, c) == Some(g)
  }

  method EdgesFrom(repo: Repo, f: File) returns (out: set<File>)
    ensures forall g :: g in out <==> Edge(repo, f, g)
  {
    out := {};
    if f !in repo.disk { return; }
    var lists, targets := Literals(repo, f), Dynamics(repo, f);
    for i := 0 to |lists|
      invariant forall g :: g in out ==> g in repo.tracked && LiteralEdge(repo, f, g)
      invariant forall k :: 0 <= k < i && Resolve(repo.disk, lists[k]).Some? && Resolve(repo.disk, lists[k]).value in repo.tracked ==>
        Resolve(repo.disk, lists[k]).value in out
    {
      var target := Resolve(repo.disk, lists[i]);
      if target.Some? && target.value in repo.tracked { out := out + {target.value}; }
    }
    for i := 0 to |targets|
      invariant forall g :: g in out ==> Edge(repo, f, g)
      invariant forall g :: g in repo.tracked && LiteralEdge(repo, f, g) ==> g in out
      invariant forall k :: 0 <= k < i && targets[k] in repo.tracked ==> targets[k] in out
    {
      if targets[i] in repo.tracked { out := out + {targets[i]}; }
    }
  }

  // ---- Closure ----

  ghost predicate Path(repo: Repo, p: seq<File>) {
    forall i :: 0 <= i < |p| - 1 ==> Edge(repo, p[i], p[i + 1])
  }

  ghost predicate PathTo(repo: Repo, entries: seq<File>, p: seq<File>, f: File) {
    p != [] && p[0] in entries && p[0] in repo.tracked && p[|p| - 1] == f && Path(repo, p)
  }

  /** Some chain of requires leads from a tracked entry to f. */
  ghost predicate Reached(repo: Repo, entries: seq<File>, f: File) {
    exists p :: PathTo(repo, entries, p, f)
  }

  lemma EntryReached(repo: Repo, entries: seq<File>, f: File)
    requires f in entries && f in repo.tracked
    ensures Reached(repo, entries, f)
  {
    assert PathTo(repo, entries, [f], f);
  }

  lemma EdgeReached(repo: Repo, entries: seq<File>, f: File, g: File)
    requires Reached(repo, entries, f) && Edge(repo, f, g)
    ensures Reached(repo, entries, g)
  {
    var p :| PathTo(repo, entries, p, f);
    assert PathTo(repo, entries, p + [g], g);
  }

  /** A set that holds the tracked entries and is closed under edges holds everything reached. */
  lemma {:induction false} ClosedHoldsPath(repo: Repo, entries: seq<File>, s: set<File>, p: seq<File>, f: File)
    requires PathTo(repo, entries, p, f)
    requires forall e :: e in entries && e in repo.tracked ==> e in s
    requires forall x, y :: x in s && Edge(repo, x, y) ==> y in s
    ensures f in s
    decreases |p|
  {
    if |p| > 1 {
      var q := p[..|p| - 1];
      assert PathTo(repo, entries, q, p[|p| - 2]);
      ClosedHoldsPath(repo, entries, s, q, p[|p| - 2]);
      assert Edge(repo, p[|p| - 2], p[|p| - 2 + 1]);
    }
  }

  lemma ClosedHoldsReached(repo: Repo, entries: seq<File>, s: set<File>)
    requires forall e :: e in entries && e in repo.tracked ==> e in s
    requires forall x, y :: x in s && Edge(repo, x, y) ==> y in s
    ensures forall f :: Reached(repo, entries, f) ==> f in s
  {
    forall f | Reached(repo, entries, f) ensures f in s {
      var p :| PathTo(repo, entries, p, f);
      ClosedHoldsPath(repo, entries, s, p, f);
    }
  }

  lemma PopElements(stack: seq<File>)
    requires stack != []
    ensures Elements(stack) == Elements(stack[..|stack| - 1]) + {stack[|stack| - 1]}
  {
  }

  /** The entries that are tracked, in order. */
  method TrackedEntries(repo: Repo, entries: seq<File>) returns (stack: seq<File>)
    ensures forall e :: e in stack <==> e in entries && e in repo.tracked
  {
    stack := [];
    for i := 0 to |entries|
      invariant forall e :: e in stack <==> e in entries[..i] && e in repo.tracked
    {
      if entries[i] in repo.tracked { stack := stack + [entries[i]]; }
    }
  }

  /** Pushes the edges not seen yet, in any order. */
  method PushUnseen(stack: seq<File>, edges: set<File>, seen: set<File>) returns (out: seq<File>)
    ensures Elements(out) == Elements(stack) + (edges - seen)
  {
    out := stack;
    var left := edges;
    while left != {}
      invariant left <= edges
      invariant forall g :: g in out <==> g in stack || (g in edges - left && g !in seen)
      decreases |left|
    {
      var next :| next in left;
      left := left - {next};
      if next !in seen { out := out + [next]; }
    }
  }

  /** What the worklist keeps: everything held is reached, and what leaves the seen set is on the stack. */
  ghost predicate Worklist(repo: Repo, entries: seq<File>, seen: set<File>, stack: set<File>) {
    && seen <= repo.tracked && stack <= repo.tracked
    && (forall f :: f in seen || f in stack ==> Reached(repo, entries, f))
    && (forall e :: e in entries && e in repo.tracked ==> e in seen || e in stack)
    && (forall x, y :: x in seen && Edge(repo, x, y) ==> y in seen || y in stack)
  }

  /** Visiting the top of the stack keeps the worklist. */
  lemma Visit(repo: Repo, entries: seq<File>, seen: set<File>, stack: set<File>, cur: File, below: set<File>,
              edges: set<File>)
    requires Worklist(repo, entries, seen, stack) && cur in stack && stack - {cur} <= below <= stack
    requires forall g :: g in edges <==> Edge(repo, cur, g)
    ensures Worklist(repo, entries, seen + {cur}, below + (edges - (seen + {cur})))
  {
    forall g | g in edges ensures Reached(repo, entries, g) { EdgeReached(repo, entries, cur, g); }
  }

  method Closure(repo: Repo, entries: seq<File>) returns (seen: set<File>)
    ensures forall f :: f in seen <==> Reached(repo, entries, f)
  {
    seen := {};
    var stack := TrackedEntries(repo, entries);
    forall f | f in stack ensures Reached(repo, entries, f) { EntryReached(repo, entries, f); }
    while stack != []
      invariant Worklist(repo, entries, seen, Elements(stack))
      decreases |repo.tracked - seen|, |stack|
    {
      var cur := stack[|stack| - 1];
      ghost var was := Elements(stack);
      PopElements(stack);
      stack := stack[..|stack| - 1];
      if cur !in seen {
        var edges := EdgesFrom(repo, cur);
        Visit(repo, entries, seen, was, cur, Elements(stack), edges);
        SubsetSize(repo.tracked - (seen + {cur}), repo.tracked - seen);
        seen := seen + {cur};
        stack := PushUnseen(stack, edges, seen);
      }
    }
    ClosedHoldsReached(repo, entries, seen);
  }

  // ---- Who requires a file ----

  /** r is a tracked non-test file that requires f. */
  ghost predicate RequiredBy(repo: Repo, f: File, r: File) {
    r in repo.tracked && !IsTest(r) && Edge(repo, r, f)
  }

  function Callers(back: map<File, set<File>>, f: File): set<File> { if f in back then back[f] else {} }

  method ReverseEdges(repo: Repo) returns (back: map<File, set<File>>)
    ensures forall f, r :: r in Callers(back, f) <==> RequiredBy(repo, f, r)
  {
    back := map[];
    var left := repo.tracked;
    while left != {}
      invariant left <= repo.tracked
      invariant forall f, r :: r in Callers(back, f) <==> r !in left && RequiredBy(repo, f, r)
      decreases |left|
    {
      var rel :| rel in left;
      left := left - {rel};
      if !IsTest(rel) {
        var targets := EdgesFrom(repo, rel);
        back := AddCaller(back, targets, rel);
      }
    }
  }

  method AddCaller(back: map<File, set<File>>, targets: set<File>, rel: File) returns (out: map<File, set<File>>)
    ensures forall f, r :: r in Callers(out, f) <==> r in Callers(back, f) || (f in targets && r == rel)
  {
    out := back;
    var left := targets;
    while left != {}
      invariant left <= targets
      invariant forall f, r :: r in Callers(out, f) <==> r in Callers(back, f) || (f in targets - left && r == rel)
      decreases |left|
    {
      var target :| target in left;
      ghost var was := out;
      left := left - {target};
      out := out[target := Callers(out, target) + {rel}];
      assert forall f :: Callers(out, f) == if f == target then Callers(was, f) + {rel} else Callers(was, f);
    }
  }

  // ---- The verdict ----

  /** A source file nothing holds: neither closure, no sibling, no twin, no non-test caller. */
  ghost predicate Unreferenced(repo: Repo, runtime: seq<File>, tooling: seq<File>, held: set<File>, f: File) {
    && f in repo.tracked && IsSource(f) && f !in held
    && !Reached(repo, runtime, f) && !Reached(repo, tooling, f)
    && forall r :: !RequiredBy(repo, f, r)
  }

  /** `held` are the files a sibling repository references or carries a twin of. */
  method Analyse(repo: Repo, runtimeEntries: seq<File>, toolingEntries: seq<File>, held: set<File>)
    returns (flagged: set<File>)
    ensures forall f :: f in flagged <==> Unreferenced(repo, runtimeEntries, toolingEntries, held, f)
  {
    var runtime := Closure(repo, runtimeEntries);
    var tooling := Closure(repo, toolingEntries);
    var back := ReverseEdges(repo);
    flagged := {};
    var left := repo.tracked;
    while left != {}
      invariant left <= repo.tracked
      invariant forall f :: f in flagged <==> f !in left && Unreferenced(repo, runtimeEntries, toolingEntries, held, f)
      decreases |left|
    {
      var rel :| rel in left;
      left := left - {rel};
      if IsSource(rel) && rel !in runtime && rel !in tooling && rel !in held && Callers(back, rel) == {} {
        flagged := flagged + {rel};
      }
    }
  }

  // ---- Deleting files ----

  function Without(repo: Repo, gone: set<File>): Repo {
    Repo(repo.disk - gone, repo.tracked - gone, repo.literal, repo.dynamic)
  }

  /** Deleting files other than the one a require resolves to does not change what it resolves to. */
  lemma {:induction false} ResolveKept(disk: set<File>, gone: set<File>, candidates: seq<File>)
    requires Resolve(disk, candidates).Some? ==> Resolve(disk, candidates).value !in gone
    ensures Resolve(disk - gone, candidates) == Resolve(disk, candidates)
  {
    if candidates != [] && !(candidates[0] in disk && IsScript(candidates[0])) {
      ResolveKept(disk, gone, candidates[1..]);
    }
  }

  /** A file that is kept and requires no deleted file keeps its edges. */
  lemma EdgesKept(repo: Repo, gone: set<File>, f: File, g: File)
    requires gone <= repo.tracked && f !in gone && forall x :: x in gone ==> !Edge(repo, f, x)
    ensures Edge(Without(repo, gone), f, g) <==> Edge(repo, f, g)
  {
    if f in repo.disk && g in repo.tracked {
      forall c | c in Literals(repo, f) ensures Resolve(repo.disk - gone, c) == Resolve(repo.disk, c) {
        if Resolve(repo.disk, c).Some? && Resolve(repo.disk, c).value in gone {
          assert LiteralEdge(repo, f, Resolve(repo.disk, c).value);
        }
        ResolveKept(repo.disk, gone, c);
      }
    }
  }

  /** Deleting files that are not reached keeps every chain of requires from the entries. */
  lemma {:induction false} PathKept(repo: Repo, entries: seq<File>, gone: set<File>, p: seq<File>, f: File)
    requires gone <= repo.tracked && (forall x :: x in gone ==> !Reached(repo, entries, x))
    requires PathTo(repo, entries, p, f)
    ensures PathTo(Without(repo, gone), entries, p, f)
    decreases |p|
  {
    assert Reached(repo, entries, f);
    if |p| > 1 {
      var q, e := p[..|p| - 1], p[|p| - 2];
      assert PathTo(repo, entries, q, e);
      PathKept(repo, entries, gone, q, e);
      assert Edge(repo, e, p[|p| - 2 + 1]);
      ReachedRequiresNoneGone(repo, entries, gone, e);
      EdgesKept(repo, gone, e, f);
      forall i | 0 <= i < |p| - 1 ensures Edge(Without(repo, gone), p[i], p[i + 1]) {
        if i < |p| - 2 { assert Edge(Without(repo, gone), q[i], q[i + 1]); }
      }
    }
  }

  lemma ReachedRequiresNoneGone(repo: Repo, entries: seq<File>, gone: set<File>, f: File)
    requires (forall x :: x in gone ==> !Reached(repo, entries, x)) && Reached(repo, entries, f)
    ensures f !in gone && forall x :: x in gone ==> !Edge(repo, f, x)
  {
    forall x | x in gone ensures !Edge(repo, f, x) {
      if Edge(repo, f, x) { EdgeReached(repo, entries, f, x); }
    }
  }

  /** After the deletion nothing new is reached. */
  lemma {:induction false} NoNewPath(repo: Repo, entries: seq<File>, gone: set<File>, p: seq<File>, f: File)
    requires gone <= repo.tracked && (forall x :: x in gone ==> !Reached(repo, entries, x))
    requires PathTo(Without(repo, gone), entries, p, f)
    ensures Reached(repo, entries, f)
    decreases |p|
  {
    if |p| == 1 {
      EntryReached(repo, entries, f);
    } else {
      var q, e := p[..|p| - 1], p[|p| - 2];
      assert PathTo(Without(repo, gone), entries, q, e);
      NoNewPath(repo, entries, gone, q, e);
      assert Edge(Without(repo, gone), e, p[|p| - 2 + 1]);
      ReachedRequiresNoneGone(repo, entries, gone, e);
      EdgesKept(repo, gone, e, f);
      EdgeReached(repo, entries, e, f);
    }
  }

  ghost predicate SameReach(repo: Repo, entries: seq<File>, gone: set<File>) {
    forall f :: Reached(Without(repo, gone), entries, f) <==> Reached(repo, entries, f)
  }

  /** Deleting tracked files leaves a closure unchanged exactly when it holds none of them, although a require may
      have later candidates to fall back to. */
  lemma DeletionKeepsReachIff(repo: Repo, entries: seq<File>, gone: set<File>)
    requires gone <= repo.tracked
    ensures SameReach(repo, entries, gone) <==> forall x :: x in gone ==> !Reached(repo, entries, x)
  {
    if forall x :: x in gone ==> !Reached(repo, entries, x) {
      forall f ensures Reached(Without(repo, gone), entries, f) <==> Reached(repo, entries, f) {
        if Reached(repo, entries, f) {
          var p :| PathTo(repo, entries, p, f);
          PathKept(repo, entries, gone, p, f);
        }
        if Reached(Without(repo, gone), entries, f) {
          var p :| PathTo(Without(repo, gone), entries, p, f);
          NoNewPath(repo, entries, gone, p, f);
        }
      }
    }
    forall x | x in gone ensures !Reached(Without(repo, gone), entries, x) {
      if Reached(Without(repo, gone), entries, x) { ReachedIsTracked(Without(repo, gone), entries, x); }
    }
  }

  lemma ReachedIsTracked(repo: Repo, entries: seq<File>, f: File)
    requires Reached(repo, entries, f)
    ensures f in repo.tracked
  {
    var p :| PathTo(repo, entries, p, f);
    if |p| > 1 { assert Edge(repo, p[|p| - 2], p[|p| - 2 + 1]); }
  }

  /** Deleting any of the flagged files leaves both closures, and the edges of every kept non-test file, unchanged. */
  lemma FlaggedDeletionIsSafe(repo: Repo, runtime: seq<File>, tooling: seq<File>, held: set<File>, gone: set<File>)
    requires forall f :: f in gone ==> Unreferenced(repo, runtime, tooling, held, f)
    ensures SameReach(repo, runtime, gone) && SameReach(repo, tooling, gone)
    ensures forall f, g :: f in repo.tracked && f !in gone && !IsTest(f) ==>
              (Edge(Without(repo, gone), f, g) <==> Edge(repo, f, g))
  {
    DeletionKeepsReachIff(repo, runtime, gone);
    DeletionKeepsReachIff(repo, tooling, gone);
    forall f, g | f in repo.tracked && f !in gone && !IsTest(f)
      ensures Edge(Without(repo, gone), f, g) <==> Edge(repo, f, g)
    {
      forall x | x in gone ensures !Edge(repo, f, x) { assert !RequiredBy(repo, x, f); }
      EdgesKept(repo, gone, f, g);
    }
  }
}
