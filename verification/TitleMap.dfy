/** The content-addressed suite-title map of bin/suite-title-map.js: expansion, refreshing one script, and comparison. */
module TitleMap {
  import opened Options

  datatype Word = Word(text: string)

  type Key = Word
  type Title = Word
  type Name = Word
  type File = Word

  /** A script was collected, each file naming a title set, or its collection failed. */
  datatype Script = Collected(files: map<File, Key>) | Failed(error: string)

  datatype SuiteMap = SuiteMap(titleSets: map<Key, seq<Title>>, scripts: map<Name, Script>)

  function FilesOf(s: Script): map<File, Key> { if s.Collected? then s.files else map[] }

  function TitlesOf(m: SuiteMap, k: Key): seq<Title> { if k in m.titleSets then m.titleSets[k] else [] }

  /** The flat view of one script. */
  function Expand(m: SuiteMap, name: Name): Option<map<File, seq<Title>>> {
    if name in m.scripts && m.scripts[name].Collected? then
      var files := m.scripts[name].files;
      Some(map f | f in files :: TitlesOf(m, files[f]))
    else None
  }

  /** Some file of some script names the title set. */
  ghost predicate Referenced(scripts: map<Name, Script>, k: Key) {
    exists n :: n in scripts && Names(scripts[n], k)
  }

  ghost predicate Names(s: Script, k: Key) { exists f :: f in FilesOf(s) && FilesOf(s)[f] == k }

  /** Every title set that is named is stored. */
  ghost predicate WellFormed(m: SuiteMap) {
    forall n, f :: n in m.scripts && f in FilesOf(m.scripts[n]) ==> FilesOf(m.scripts[n])[f] in m.titleSets
  }

  // ---- Refreshing one script ----

  datatype MergeError = NotFresh | NotCurrent | Collision(key: Key) | MissingSet(key: Key)

  datatype Result = Merged(m: SuiteMap) | Refused(error: MergeError)

  function NewScripts(existing: SuiteMap, update: SuiteMap, name: Name): map<Name, Script>
    requires name in update.scripts
  {
    existing.scripts[name := update.scripts[name]]
  }

  /** The keys the scripts name. */
  method ReferencedKeys(scripts: map<Name, Script>) returns (r: set<Key>)
    ensures forall k :: k in r <==> Referenced(scripts, k)
  {
    r := {};
    var left := scripts.Keys;
    while left != {}
      invariant left <= scripts.Keys
      invariant forall k :: k in r <==> exists n :: n in scripts.Keys - left && Names(scripts[n], k)
      decreases |left|
    {
      var name :| name in left;
      ghost var was, done := r, scripts.Keys - left;
      left := left - {name};
      var files := FilesOf(scripts[name]);
      r := r + set f | f in files :: files[f];
      forall k ensures k in r <==> exists n :: n in scripts.Keys - left && Names(scripts[n], k) {
        assert scripts.Keys - left == done + {name};
        assert k in r <==> k in was || Names(scripts[name], k);
      }
    }
  }

  /** The stored sets agree where both maps have the key. */
  ghost predicate Agrees(existing: SuiteMap, update: SuiteMap, k: Key) {
    k in existing.titleSets && k in update.titleSets ==> existing.titleSets[k] == update.titleSets[k]
  }

  ghost predicate Stored(existing: SuiteMap, update: SuiteMap, k: Key) {
    k in existing.titleSets || k in update.titleSets
  }

  /** The set stored under a key, the fresh one first. */
  function Chosen(existing: SuiteMap, update: SuiteMap, k: Key): seq<Title> {
    if k in update.titleSets then update.titleSets[k] else TitlesOf(existing, k)
  }

  method GatherSets(existing: SuiteMap, update: SuiteMap, referenced: set<Key>)
    returns (error: Option<MergeError>, sets: map<Key, seq<Title>>)
    ensures error.None? <==> forall k :: k in referenced ==> Agrees(existing, update, k) && Stored(existing, update, k)
    ensures error.None? ==> sets.Keys == referenced
    ensures error.None? ==> forall k :: k in sets ==> sets[k] == Chosen(existing, update, k)
    ensures error.Some? && error.value.Collision? ==> error.value.key in referenced && !Agrees(existing, update, error.value.key)
    ensures error.Some? ==> error.value.Collision? || (error.value.MissingSet? && !Stored(existing, update, error.value.key))
  {
    sets := map[];
    var left := referenced;
    while left != {}
      invariant left <= referenced && sets.Keys == referenced - left
      invariant forall k :: k in sets ==> Agrees(existing, update, k) && Stored(existing, update, k)
      invariant forall k :: k in sets ==> sets[k] == Chosen(existing, update, k)
      decreases |left|
    {
      var k :| k in left;
      left := left - {k};
      if k in existing.titleSets && k in update.titleSets && existing.titleSets[k] != update.titleSets[k] {
        return Some(Collision(k)), sets;
      }
      if k !in existing.titleSets && k !in update.titleSets {
        return Some(MissingSet(k)), sets;
      }
      sets := sets[k := Chosen(existing, update, k)];
    }
    return None, sets;
  }

  method MergeScriptMap(existing: SuiteMap, update: SuiteMap, name: Name, expected: Option<set<Name>>) returns (r: Result)
    ensures r.Merged? <==>
              && name in update.scripts && (expected.Some? ==> expected.value == existing.scripts.Keys)
              && forall k :: Referenced(NewScripts(existing, update, name), k) ==> Agrees(existing, update, k) && Stored(existing, update, k)
    ensures r.Merged? ==> IsMerge(existing, update, name, r.m)
  {
    if name !in update.scripts { return Refused(NotFresh); }
    if expected.Some? && (expected.value - existing.scripts.Keys != {} || existing.scripts.Keys - expected.value != {}) {
      assert expected.value != existing.scripts.Keys;
      return Refused(NotCurrent);
    }
    assert expected.Some? ==> expected.value == existing.scripts.Keys by {
      if expected.Some? {
        assert forall n :: n in expected.value ==> n in existing.scripts.Keys || n in expected.value - existing.scripts.Keys;
        assert forall n :: n in existing.scripts.Keys ==> n in expected.value || n in existing.scripts.Keys - expected.value;
      }
    }
    var scripts := NewScripts(existing, update, name);
    var referenced := ReferencedKeys(scripts);
    var error, sets := GatherSets(existing, update, referenced);
    if error.Some? { return Refused(error.value); }
    return Merged(SuiteMap(sets, scripts));
  }

  /** What a merge is, without saying how its sets are gathered. */
  ghost predicate IsMerge(existing: SuiteMap, update: SuiteMap, name: Name, m: SuiteMap) {
    && name in update.scripts && m.scripts == NewScripts(existing, update, name)
    && (forall k :: k in m.titleSets <==> Referenced(m.scripts, k))
    && (forall k :: k in m.titleSets ==> Agrees(existing, update, k))
    && (forall k :: k in m.titleSets && k in update.titleSets ==> m.titleSets[k] == update.titleSets[k])
    && (forall k :: k in m.titleSets && k in existing.titleSets ==> m.titleSets[k] == existing.titleSets[k])
  }

  /** The refreshed script expands to the fresh titles. */
  lemma RefreshedExpands(existing: SuiteMap, update: SuiteMap, name: Name, m: SuiteMap)
    requires WellFormed(update) && IsMerge(existing, update, name, m)
    ensures Expand(m, name) == Expand(update, name)
  {
    if update.scripts[name].Collected? {
      var files := update.scripts[name].files;
      forall f | f in files ensures TitlesOf(m, files[f]) == TitlesOf(update, files[f]) {
        assert f in FilesOf(update.scripts[name]);
        assert Names(m.scripts[name], files[f]);
        assert Referenced(m.scripts, files[f]);
      }
      assert (map f | f in files :: TitlesOf(m, files[f])) == (map f | f in files :: TitlesOf(update, files[f]));
    }
  }

  /** Every other script expands as before. */
  lemma OthersUnchanged(existing: SuiteMap, update: SuiteMap, name: Name, m: SuiteMap, other: Name)
    requires WellFormed(existing) && IsMerge(existing, update, name, m) && other != name
    ensures Expand(m, other) == Expand(existing, other)
  {
    if other in existing.scripts && existing.scripts[other].Collected? {
      var files := existing.scripts[other].files;
      forall f | f in files ensures TitlesOf(m, files[f]) == TitlesOf(existing, files[f]) {
        assert f in FilesOf(existing.scripts[other]);
        assert Names(m.scripts[other], files[f]);
        assert Referenced(m.scripts, files[f]);
      }
      assert (map f | f in files :: TitlesOf(m, files[f])) == (map f | f in files :: TitlesOf(existing, files[f]));
    }
  }

  /** The merged map is well-formed, so it can be refreshed again. */
  lemma MergeWellFormed(existing: SuiteMap, update: SuiteMap, name: Name, m: SuiteMap)
    requires IsMerge(existing, update, name, m)
    ensures WellFormed(m)
  {
    forall n, f | n in m.scripts && f in FilesOf(m.scripts[n]) ensures FilesOf(m.scripts[n])[f] in m.titleSets {
      assert Names(m.scripts[n], FilesOf(m.scripts[n])[f]);
      assert Referenced(m.scripts, FilesOf(m.scripts[n])[f]);
    }
  }

  // ---- Comparing a pin with a tree ----

  type Titles = map<File, seq<Title>>

  /** A file under its declared new name. */
  function Moved(renames: map<File, File>, f: File): File {
    if f in renames && renames[f].text != "" then renames[f] else f
  }

  /** The pinned files under their new names; of two files moved to one name, the later in order stays. */
  function Renamed(before: Titles, renames: map<File, File>, order: seq<File>): Titles
    requires forall i :: 0 <= i < |order| ==> order[i] in before
  {
    if order == [] then map[]
    else
      var last := order[|order| - 1];
      Renamed(before, renames, order[..|order| - 1])[Moved(renames, last) := before[last]]
  }

  ghost predicate Enumerates(order: seq<File>, files: set<File>) {
    (forall f :: f in files <==> f in order) && forall i, j :: 0 <= i < j < |order| ==> order[i] != order[j]
  }

  datatype FileDiff =
    | FileAdded(file: File)
    | FileDropped(file: File)
    | TitleDropped(file: File, title: Title)
    | TitleAdded(file: File, title: Title)

  ghost predicate Differs(mapped: Titles, after: Titles, d: FileDiff) {
    match d
    case FileAdded(f) => f in after && f !in mapped
    case FileDropped(f) => f in mapped && f !in after
    case TitleDropped(f, t) => f in mapped && f in after && t in mapped[f] && t !in after[f]
    case TitleAdded(f, t) => f in mapped && f in after && t in after[f] && t !in mapped[f]
  }

  method MapRenamed(before: Titles, renames: map<File, File>, order: seq<File>) returns (mapped: Titles)
    requires forall i :: 0 <= i < |order| ==> order[i] in before
    ensures mapped == Renamed(before, renames, order)
  {
    mapped := map[];
    for i := 0 to |order|
      invariant mapped == Renamed(before, renames, order[..i])
    {
      assert order[..i + 1][..i] == order[..i];
      mapped := mapped[Moved(renames, order[i]) := before[order[i]]];
    }
    assert order[..|order|] == order;
  }

  /** The titles of one list that the other lacks, in order and as often as they stand. */
  function TitleDiffs(f: File, titles: seq<Title>, other: seq<Title>, dropped: bool): seq<FileDiff> {
    if titles == [] then []
    else
      var t := titles[|titles| - 1];
      TitleDiffs(f, titles[..|titles| - 1], other, dropped) +
      if t in other then [] else [if dropped then TitleDropped(f, t) else TitleAdded(f, t)]
  }

  /** The differences of one file. */
  function FileDiffs(mapped: Titles, after: Titles, f: File): seq<FileDiff> {
    if f !in mapped then [FileAdded(f)]
    else if f !in after then [FileDropped(f)]
    else TitleDiffs(f, mapped[f], after[f], true) + TitleDiffs(f, after[f], mapped[f], false)
  }

  function DiffsOver(mapped: Titles, after: Titles, files: seq<File>): seq<FileDiff> {
    if files == [] then []
    else DiffsOver(mapped, after, files[..|files| - 1]) + FileDiffs(mapped, after, files[|files| - 1])
  }

  method CompareTitles(f: File, titles: seq<Title>, other: seq<Title>, dropped: bool) returns (out: seq<FileDiff>)
    ensures out == TitleDiffs(f, titles, other, dropped)
  {
    out := [];
    for i := 0 to |titles|
      invariant out == TitleDiffs(f, titles[..i], other, dropped)
    {
      assert titles[..i + 1][..i] == titles[..i];
      if titles[i] !in other {
        out := out + [if dropped then TitleDropped(f, titles[i]) else TitleAdded(f, titles[i])];
      }
    }
    assert titles[..|titles|] == titles;
  }

  method CompareFiles(mapped: Titles, after: Titles, files: seq<File>) returns (out: seq<FileDiff>)
    ensures out == DiffsOver(mapped, after, files)
  {
    out := [];
    for i := 0 to |files|
      invariant out == DiffsOver(mapped, after, files[..i])
    {
      var f := files[i];
      assert files[..i + 1][..i] == files[..i];
      if f !in mapped {
        out := out + [FileAdded(f)];
      } else if f !in after {
        out := out + [FileDropped(f)];
      } else {
        var gone := CompareTitles(f, mapped[f], after[f], true);
        var added := CompareTitles(f, after[f], mapped[f], false);
        out := out + (gone + added);
      }
    }
    assert files[..|files|] == files;
  }

  lemma {:induction false} TitleDiffsAre(f: File, titles: seq<Title>, other: seq<Title>, dropped: bool, d: FileDiff)
    ensures d in TitleDiffs(f, titles, other, dropped) <==>
            && (if dropped then d.TitleDropped? else d.TitleAdded?)
            && d.file == f && d.title in titles && d.title !in other
  {
    if titles == [] {
    } else {
      var rest, t := titles[..|titles| - 1], titles[|titles| - 1];
      TitleDiffsAre(f, rest, other, dropped, d);
      assert titles == rest + [t];
    }
  }

  lemma FileDiffsAre(mapped: Titles, after: Titles, f: File, d: FileDiff)
    requires f in mapped || f in after
    ensures d in FileDiffs(mapped, after, f) <==> d.file == f && Differs(mapped, after, d)
  {
    if f in mapped && f in after {
      TitleDiffsAre(f, mapped[f], after[f], true, d);
      TitleDiffsAre(f, after[f], mapped[f], false, d);
    }
  }

  /** The reported differences of the listed files are exactly those that hold. */
  lemma {:induction false} DiffsOverAre(mapped: Titles, after: Titles, files: seq<File>, d: FileDiff)
    requires forall i :: 0 <= i < |files| ==> files[i] in mapped || files[i] in after
    ensures d in DiffsOver(mapped, after, files) <==> d.file in files && Differs(mapped, after, d)
  {
    if files == [] {
    } else {
      var rest, f := files[..|files| - 1], files[|files| - 1];
      DiffsOverAre(mapped, after, rest, d);
      FileDiffsAre(mapped, after, f, d);
      assert files == rest + [f];
    }
  }

  datatype ScriptDiff = CollectionError | ScriptRemoved | ScriptAdded | InFile(diff: FileDiff)

  /** A difference of one script; `sorted` lists a set in order. */
  ghost predicate ScriptDiffers(pin: SuiteMap, update: SuiteMap, renames: map<File, File>,
                                sorted: set<File> -> seq<File>, n: Name, d: ScriptDiff)
    requires forall s :: Enumerates(sorted(s), s)
  {
    var before, after := Expand(pin, n), Expand(update, n);
    if n in update.scripts && update.scripts[n].Failed? then d == CollectionError
    else if before.None? && after.None? then false
    else if before.None? then d == ScriptAdded
    else if after.None? then d == ScriptRemoved
    else
      var order := sorted(before.value.Keys);
      assert Enumerates(order, before.value.Keys);
      d.InFile? && Differs(Renamed(before.value, renames, order), after.value, d.diff)
  }

  function InFiles(ds: seq<FileDiff>): seq<ScriptDiff> {
    if ds == [] then [] else InFiles(ds[..|ds| - 1]) + [InFile(ds[|ds| - 1])]
  }

  lemma {:induction false} InFilesAre(ds: seq<FileDiff>, d: ScriptDiff)
    ensures d in InFiles(ds) <==> d.InFile? && d.diff in ds
  {
    if ds == [] {
    } else {
      InFilesAre(ds[..|ds| - 1], d);
      assert ds == ds[..|ds| - 1] + [ds[|ds| - 1]];
    }
  }

  /** The differences of two flat views, file by file in order. */
  function ViewDiffs(before: Titles, after: Titles, renames: map<File, File>,
                     sorted: set<File> -> seq<File>): seq<FileDiff>
    requires forall s :: Enumerates(sorted(s), s)
  {
    assert Enumerates(sorted(before.Keys), before.Keys);
    var mapped := Renamed(before, renames, sorted(before.Keys));
    DiffsOver(mapped, after, sorted(mapped.Keys + after.Keys))
  }

  lemma EnumeratedDiffsAre(mapped: Titles, after: Titles, files: seq<File>, d: FileDiff)
    requires Enumerates(files, mapped.Keys + after.Keys)
    ensures d in DiffsOver(mapped, after, files) <==> Differs(mapped, after, d)
  {
    forall i | 0 <= i < |files| ensures files[i] in mapped || files[i] in after { assert files[i] in files; }
    DiffsOverAre(mapped, after, files, d);
  }

  lemma ViewDiffsAre(before: Titles, after: Titles, renames: map<File, File>, sorted: set<File> -> seq<File>, d: FileDiff)
    requires forall s :: Enumerates(sorted(s), s)
    ensures (assert Enumerates(sorted(before.Keys), before.Keys);
             d in ViewDiffs(before, after, renames, sorted) <==>
             Differs(Renamed(before, renames, sorted(before.Keys)), after, d))
  {
    assert Enumerates(sorted(before.Keys), before.Keys);
    var mapped := Renamed(before, renames, sorted(before.Keys));
    assert Enumerates(sorted(mapped.Keys + after.Keys), mapped.Keys + after.Keys);
    EnumeratedDiffsAre(mapped, after, sorted(mapped.Keys + after.Keys), d);
  }

  method CompareViews(before: Titles, after: Titles, renames: map<File, File>, sorted: set<File> -> seq<File>)
    returns (out: seq<FileDiff>)
    requires forall s :: Enumerates(sorted(s), s)
    ensures out == ViewDiffs(before, after, renames, sorted)
  {
    var order := sorted(before.Keys);
    assert Enumerates(order, before.Keys);
    var mapped := MapRenamed(before, renames, order);
    out := CompareFiles(mapped, after, sorted(mapped.Keys + after.Keys));
  }

  /** The differences of one script, in the order they are reported. */
  function ScriptDiffs(pin: SuiteMap, update: SuiteMap, renames: map<File, File>, sorted: set<File> -> seq<File>,
                       n: Name): seq<ScriptDiff>
    requires forall s :: Enumerates(sorted(s), s)
  {
    var before, after := Expand(pin, n), Expand(update, n);
    if n in update.scripts && update.scripts[n].Failed? then [CollectionError]
    else if before.None? && after.None? then []
    else if before.None? then [ScriptAdded]
    else if after.None? then [ScriptRemoved]
    else InFiles(ViewDiffs(before.value, after.value, renames, sorted))
  }

  method CompareScript(pin: SuiteMap, update: SuiteMap, renames: map<File, File>, sorted: set<File> -> seq<File>, n: Name)
    returns (out: seq<ScriptDiff>)
    requires forall s :: Enumerates(sorted(s), s)
    ensures out == ScriptDiffs(pin, update, renames, sorted, n)
  {
    if n in update.scripts && update.scripts[n].Failed? { return [CollectionError]; }
    var before, after := Expand(pin, n), Expand(update, n);
    if before.None? && after.None? { return []; }
    if before.None? { return [ScriptAdded]; }
    if after.None? { return [ScriptRemoved]; }
    var diffs := CompareViews(before.value, after.value, renames, sorted);
    out := InFiles(diffs);
  }

  /** What is reported of a script is exactly what differs. */
  lemma ScriptDiffsAre(pin: SuiteMap, update: SuiteMap, renames: map<File, File>, sorted: set<File> -> seq<File>, n: Name,
                       d: ScriptDiff)
    requires forall s :: Enumerates(sorted(s), s)
    ensures d in ScriptDiffs(pin, update, renames, sorted, n) <==> ScriptDiffers(pin, update, renames, sorted, n, d)
  {
    var before, after := Expand(pin, n), Expand(update, n);
    if before.Some? && after.Some? {
      InFilesAre(ViewDiffs(before.value, after.value, renames, sorted), d);
      if d.InFile? { ViewDiffsAre(before.value, after.value, renames, sorted, d.diff); }
    }
  }

  function Tagged(n: Name, ds: seq<ScriptDiff>): seq<(Name, ScriptDiff)> {
    if ds == [] then [] else Tagged(n, ds[..|ds| - 1]) + [(n, ds[|ds| - 1])]
  }

  lemma {:induction false} TaggedAre(n: Name, ds: seq<ScriptDiff>, x: (Name, ScriptDiff))
    ensures x in Tagged(n, ds) <==> x.0 == n && x.1 in ds
  {
    if ds == [] {
    } else {
      TaggedAre(n, ds[..|ds| - 1], x);
      assert ds == ds[..|ds| - 1] + [ds[|ds| - 1]];
    }
  }

  /** The scripts compared: all of both maps, or the one asked for. */
  function Compared(pin: SuiteMap, update: SuiteMap, only: Option<Name>): set<Name> {
    set n | n in pin.scripts.Keys + update.scripts.Keys && (only.None? || n == only.value)
  }

  /** The differences of the named scripts, one script after the other. */
  function DiffsOfScripts(pin: SuiteMap, update: SuiteMap, renames: map<File, File>, sorted: set<File> -> seq<File>,
                          names: seq<Name>): seq<(Name, ScriptDiff)>
    requires forall s :: Enumerates(sorted(s), s)
  {
    if names == [] then []
    else
      var n := names[|names| - 1];
      DiffsOfScripts(pin, update, renames, sorted, names[..|names| - 1]) +
      Tagged(n, ScriptDiffs(pin, update, renames, sorted, n))
  }

  lemma {:induction false} DiffsOfScriptsAre(pin: SuiteMap, update: SuiteMap, renames: map<File, File>,
                                             sorted: set<File> -> seq<File>, names: seq<Name>, x: (Name, ScriptDiff))
    requires forall s :: Enumerates(sorted(s), s)
    ensures x in DiffsOfScripts(pin, update, renames, sorted, names) <==>
            x.0 in names && ScriptDiffers(pin, update, renames, sorted, x.0, x.1)
  {
    if names == [] {
    } else {
      var front, n := names[..|names| - 1], names[|names| - 1];
      DiffsOfScriptsAre(pin, update, renames, sorted, front, x);
      TaggedAre(n, ScriptDiffs(pin, update, renames, sorted, n), x);
      ScriptDiffsAre(pin, update, renames, sorted, n, x.1);
      assert names == front + [n];
    }
  }

  /** Compares the scripts in order; every reported difference holds, and every one that holds is reported. */
  method Compare(pin: SuiteMap, update: SuiteMap, renames: map<File, File>, only: Option<Name>,
                 sorted: set<File> -> seq<File>)
    returns (out: seq<(Name, ScriptDiff)>)
    requires forall s :: Enumerates(sorted(s), s)
    ensures out == DiffsOfScripts(pin, update, renames, sorted, sorted(Compared(pin, update, only)))
    ensures forall x :: x in out <==>
              && (x.0 in pin.scripts || x.0 in update.scripts) && (only.None? || only == Some(x.0))
              && ScriptDiffers(pin, update, renames, sorted, x.0, x.1)
  {
    out := [];
    var names := sorted(Compared(pin, update, only));
    for i := 0 to |names|
      invariant out == DiffsOfScripts(pin, update, renames, sorted, names[..i])
    {
      var diffs := CompareScript(pin, update, renames, sorted, names[i]);
      assert names[..i + 1][..i] == names[..i];
      out := out + Tagged(names[i], diffs);
    }
    assert names[..|names|] == names && Enumerates(names, Compared(pin, update, only));
    forall x
      ensures x in out <==> x.0 in Compared(pin, update, only) && ScriptDiffers(pin, update, renames, sorted, x.0, x.1)
    {
      DiffsOfScriptsAre(pin, update, renames, sorted, names, x);
    }
  }

  /** The same titles in the same files, in any order and with any repetition. */
  ghost predicate SameTitles(mapped: Titles, after: Titles) {
    mapped.Keys == after.Keys && forall f, t :: f in mapped && f in after ==> (t in mapped[f] <==> t in after[f])
  }

  /** No difference is reported exactly when every file has the same titles as a set. */
  lemma NoDifferenceIff(mapped: Titles, after: Titles)
    ensures (forall d :: !Differs(mapped, after, d)) <==> SameTitles(mapped, after)
  {
    if forall d :: !Differs(mapped, after, d) {
      forall f ensures f in mapped <==> f in after {
        assert !Differs(mapped, after, FileAdded(f)) && !Differs(mapped, after, FileDropped(f));
      }
      forall f, t | f in mapped && f in after ensures t in mapped[f] <==> t in after[f] {
        assert !Differs(mapped, after, TitleDropped(f, t)) && !Differs(mapped, after, TitleAdded(f, t));
      }
    }
  }

  ghost predicate Injective(renames: map<File, File>, files: set<File>) {
    forall f, g :: f in files && g in files && Moved(renames, f) == Moved(renames, g) ==> f == g
  }

  /** Without a clash every file is found under its new name, and nothing else. */
  lemma {:induction false} RenamedHolds(before: Titles, renames: map<File, File>, order: seq<File>)
    requires (forall i :: 0 <= i < |order| ==> order[i] in before) && Injective(renames, before.Keys)
    ensures forall f :: f in order ==> Moved(renames, f) in Renamed(before, renames, order) &&
                                       Renamed(before, renames, order)[Moved(renames, f)] == before[f]
    ensures forall g :: g in Renamed(before, renames, order) ==> exists f :: f in order && g == Moved(renames, f)
  {
    if order == [] {
    } else {
      var rest, last := order[..|order| - 1], order[|order| - 1];
      RenamedHolds(before, renames, rest);
      assert forall f :: f in order <==> f in rest || f == last;
    }
  }

  lemma RenamedIs(before: Titles, after: Titles, renames: map<File, File>, order: seq<File>)
    requires Enumerates(order, before.Keys) && Injective(renames, before.Keys)
    requires forall f :: f in before ==> Moved(renames, f) in after && after[Moved(renames, f)] == before[f]
    requires forall g :: g in after ==> exists f :: f in before && g == Moved(renames, f)
    ensures Renamed(before, renames, order) == after
  {
    var mapped := Renamed(before, renames, order);
    RenamedHolds(before, renames, order);
    forall g ensures g in mapped <==> g in after {
      if g in mapped {
        var f :| f in order && g == Moved(renames, f);
      }
      if g in after {
        var f :| f in before && g == Moved(renames, f);
        assert f in order;
      }
    }
    forall g | g in after ensures mapped[g] == after[g] {
      var f :| f in before && g == Moved(renames, f);
      assert f in order;
    }
  }

  /** A pure move, each pinned file found under its new name with its titles, reports no difference. */
  lemma PureMoveIsSilent(before: Titles, after: Titles, renames: map<File, File>, order: seq<File>)
    requires Enumerates(order, before.Keys) && Injective(renames, before.Keys)
    requires forall f :: f in before ==> Moved(renames, f) in after && after[Moved(renames, f)] == before[f]
    requires forall g :: g in after ==> exists f :: f in before && g == Moved(renames, f)
    ensures Renamed(before, renames, order) == after
    ensures forall d :: !Differs(Renamed(before, renames, order), after, d)
  {
    RenamedIs(before, after, renames, order);
    NoDifferenceIff(after, after);
  }

  /** Comparing the merged map with the fresh one, narrowed to an error-free refreshed script, reports nothing. */
  lemma MergedIsSilent(existing: SuiteMap, update: SuiteMap, name: Name, m: SuiteMap, sorted: set<File> -> seq<File>)
    requires WellFormed(update) && IsMerge(existing, update, name, m) && update.scripts[name].Collected?
    requires forall s :: Enumerates(sorted(s), s)
    ensures forall d :: !ScriptDiffers(m, update, map[], sorted, name, d)
  {
    RefreshedExpands(existing, update, name, m);
    var titles := Expand(update, name).value;
    PureMoveIsSilent(titles, titles, map[], sorted(titles.Keys));
  }

  // ---- In terms of the stored title sets ----

  /** The titles a collected script stores for a file. */
  ghost predicate Shows(m: SuiteMap, n: Name, f: File, titles: seq<Title>) {
    && n in m.scripts && m.scripts[n].Collected? && f in m.scripts[n].files
    && m.scripts[n].files[f] in m.titleSets && m.titleSets[m.scripts[n].files[f]] == titles
  }

  lemma ExpandShows(m: SuiteMap, n: Name, f: File, titles: seq<Title>)
    requires WellFormed(m)
    ensures Expand(m, n).Some? && f in Expand(m, n).value && Expand(m, n).value[f] == titles <==> Shows(m, n, f, titles)
  {
    if n in m.scripts && m.scripts[n].Collected? && f in m.scripts[n].files {
      assert f in FilesOf(m.scripts[n]);
    }
  }

  /** After a merge a file of the refreshed script shows its fresh titles, and a file of any other script its old ones. */
  lemma MergeShows(existing: SuiteMap, update: SuiteMap, name: Name, m: SuiteMap, n: Name, f: File, titles: seq<Title>)
    requires WellFormed(existing) && WellFormed(update) && IsMerge(existing, update, name, m)
    ensures Shows(m, n, f, titles) <==> if n == name then Shows(update, n, f, titles) else Shows(existing, n, f, titles)
  {
    MergeWellFormed(existing, update, name, m);
    ExpandShows(m, n, f, titles);
    ExpandShows(update, n, f, titles);
    ExpandShows(existing, n, f, titles);
    if n == name {
      RefreshedExpands(existing, update, name, m);
    } else {
      OthersUnchanged(existing, update, name, m, n);
    }
  }

  /** Without a clash a pinned file is compared under its declared new name, and under its own when none, or an empty
      one, is declared. */
  lemma MovedFile(before: Titles, renames: map<File, File>, order: seq<File>, f: File)
    requires Enumerates(order, before.Keys) && Injective(renames, before.Keys) && f in before
    ensures var mapped := Renamed(before, renames, order);
            && (f in renames && |renames[f].text| > 0 ==> renames[f] in mapped && mapped[renames[f]] == before[f])
            && (f !in renames || |renames[f].text| == 0 ==> f in mapped && mapped[f] == before[f])
  {
    RenamedHolds(before, renames, order);
    assert f in order;
  }

  lemma NoRenames(before: Titles, order: seq<File>)
    requires Enumerates(order, before.Keys)
    ensures Renamed(before, map[], order) == before
  {
    RenamedIs(before, before, map[], order);
  }

  /** Without renames, a title is reported dropped exactly when the pin shows it for a file and the tree shows that file
      without it, and added the other way round. */
  lemma TitlesReportedIff(pin: SuiteMap, update: SuiteMap, sorted: set<File> -> seq<File>, n: Name, f: File, t: Title)
    requires WellFormed(pin) && WellFormed(update) && forall s :: Enumerates(sorted(s), s)
    ensures ScriptDiffers(pin, update, map[], sorted, n, InFile(TitleDropped(f, t))) <==>
            exists x, y :: Shows(pin, n, f, x) && Shows(update, n, f, y) && t in x && t !in y
    ensures ScriptDiffers(pin, update, map[], sorted, n, InFile(TitleAdded(f, t))) <==>
            exists x, y :: Shows(pin, n, f, x) && Shows(update, n, f, y) && t !in x && t in y
  {
    var before, after := Expand(pin, n), Expand(update, n);
    forall x ensures before.Some? && f in before.value && before.value[f] == x <==> Shows(pin, n, f, x) {
      ExpandShows(pin, n, f, x);
    }
    forall y ensures after.Some? && f in after.value && after.value[f] == y <==> Shows(update, n, f, y) {
      ExpandShows(update, n, f, y);
    }
    if before.Some? && after.Some? {
      assert Enumerates(sorted(before.value.Keys), before.value.Keys);
      NoRenames(before.value, sorted(before.value.Keys));
    }
  }
}
