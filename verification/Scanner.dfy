/**
 Comparing the files found on disk with the tracks table (desktop/src/library/scanner.cpp, Scanner::diff), and
 what writing the outcome back comes to (desktop/src/library/database.cpp: upsert_track, mark_paths_gone,
 get_all_paths, get_track_by_path).

 The path column is unique and compared without regard to ASCII case (desktop/src/library/schema.sql:56), so the
 table is a map from folded paths to rows.
 */
module Scanner {
  import opened Wrappers
  import opened Ordering

  datatype File = File(path: string, size: int, mtime: int)
  datatype Row = Row(path: string, size: int, updatedAt: int, deleted: bool)
  datatype Kind = New | Changed | Unchanged

  datatype ScanResult = ScanResult(
    newFiles: seq<string>, changedFiles: seq<string>, unchangedFiles: seq<string>, goneFiles: seq<string>)

  datatype Error = NoDatabase

  type Table = map<string, Row>

  // ----- The table -----

  function FoldChar(c: char): char {
    if 'A' <= c <= 'Z' then c - 'A' + 'a' else c
  }

  /** A path as the NOCASE collation compares it. */
  function Fold(path: string): (folded: string)
    ensures |folded| == |path|
  {
    if path == "" then "" else [FoldChar(path[0])] + Fold(path[1..])
  }

  ghost predicate Valid(t: Table) {
    forall k | k in t :: Fold(t[k].path) == k
  }

  predicate IsLive(t: Table, key: string) {
    key in t && !t[key].deleted
  }

  /** get_all_paths. */
  function Live(t: Table): set<string> {
    set k | k in t && !t[k].deleted :: t[k].path
  }

  /** get_track_by_path. */
  function Lookup(t: Table, path: string): Option<Row> {
    if IsLive(t, Fold(path)) then Some(t[Fold(path)]) else None
  }

  /** upsert_track: a row already at that path keeps its spelling and stays deleted if it was. */
  function Upsert(t: Table, f: File, now: int): Table {
    var key := Fold(f.path);
    t[key := if key in t then t[key].(size := f.size, updatedAt := now) else Row(f.path, f.size, now, false)]
  }

  /** mark_paths_gone for one path. */
  function MarkGone(t: Table, path: string): Table {
    var key := Fold(path);
    if IsLive(t, key) then t[key := t[key].(deleted := true)] else t
  }

  // ----- What a diff says -----

  /** The i-th file counts as known only the first time its path comes up. */
  ghost predicate Known(t: Table, files: seq<File>, i: nat)
    requires i < |files|
  {
    files[i].path in Live(t) && forall j | 0 <= j < i :: files[j].path != files[i].path
  }

  predicate UpToDate(t: Table, f: File) {
    var row := Lookup(t, f.path);
    row.Some? && row.value.size == f.size && row.value.updatedAt >= f.mtime
  }

  ghost function KindOf(t: Table, files: seq<File>, i: nat): Kind
    requires i < |files|
  {
    if !Known(t, files, i) then New else if UpToDate(t, files[i]) then Unchanged else Changed
  }

  /** The paths of one kind among the first n files, in order. */
  ghost function Pick(t: Table, files: seq<File>, n: nat, kind: Kind): seq<string>
    requires n <= |files|
  {
    if n == 0 then []
    else Pick(t, files, n - 1, kind) + if KindOf(t, files, n - 1) == kind then [files[n - 1].path] else []
  }

  function PathsOf(files: seq<File>, n: nat): set<string>
    requires n <= |files|
  {
    set j | 0 <= j < n :: files[j].path
  }

  function Gone(t: Table, files: seq<File>): set<string> {
    Live(t) - PathsOf(files, |files|)
  }

  ghost predicate IsDiff(t: Table, files: seq<File>, r: ScanResult) {
    && r.newFiles == Pick(t, files, |files|, New)
    && r.changedFiles == Pick(t, files, |files|, Changed)
    && r.unchangedFiles == Pick(t, files, |files|, Unchanged)
    && Lists(r.goneFiles, Gone(t, files))
  }

  function Paths(files: seq<File>, n: nat): seq<string>
    requires n <= |files|
  {
    if n == 0 then [] else Paths(files, n - 1) + [files[n - 1].path]
  }

  /** How often a path is in a list. */
  function Times(paths: seq<string>, p: string): nat {
    multiset(paths)[p]
  }

  /** The three lists together hold every discovered path as often as it came up. */
  ghost predicate IsPartition(t: Table, files: seq<File>, n: nat, p: string)
    requires n <= |files|
  {
    Times(Pick(t, files, n, New), p) + Times(Pick(t, files, n, Changed), p) + Times(Pick(t, files, n, Unchanged), p)
    == Times(Paths(files, n), p)
  }

  // ----- What a file is listed as -----

  /** Equal up to the case of the letters A to Z. */
  predicate SameUpToCase(a: string, b: string) {
    |a| == |b| && forall i | 0 <= i < |a| ::
      || a[i] == b[i]
      || (65 <= a[i] as int <= 90 && b[i] as int == a[i] as int + 32)
      || (65 <= b[i] as int <= 90 && a[i] as int == b[i] as int + 32)
  }

  /** NOCASE. */
  lemma {:induction false} FoldMeaning(a: string, b: string)
    ensures Fold(a) == Fold(b) <==> SameUpToCase(a, b)
    decreases |a|
  {
    if a != "" && b != "" {
      FoldMeaning(a[1..], b[1..]);
      var x, y := a[1..], b[1..];
      assert forall i | 0 < i < |a| :: a[i] == x[i - 1];
      assert forall i | 0 < i < |b| :: b[i] == y[i - 1];
      assert forall i | 0 <= i < |x| :: x[i] == a[i + 1];
      assert forall i | 0 <= i < |y| :: y[i] == b[i + 1];
      assert Fold(a)[1..] == Fold(x) && Fold(b)[1..] == Fold(y);
    }
  }

  /** Some row that is not deleted has this path. */
  predicate IsStored(t: Table, path: string) {
    exists key | key in t :: !t[key].deleted && t[key].path == path
  }

  /** Some row that is not deleted has this path and this very size, and was written no earlier than the file. */
  predicate IsCurrent(t: Table, f: File) {
    exists key | key in t ::
      !t[key].deleted && t[key].path == f.path && t[key].size == f.size && t[key].updatedAt >= f.mtime
  }

  predicate IsFirst(files: seq<File>, i: nat)
    requires i < |files|
  {
    forall j | 0 <= j < i :: files[j].path != files[i].path
  }

  /** The i-th file is in the list that holds the files of its kind, in the order they were discovered. */
  ghost predicate IsListing(files: seq<File>, places: seq<nat>, paths: seq<string>) {
    && |places| == |paths|
    && (forall k | 0 <= k < |places| :: places[k] < |files| && paths[k] == files[places[k]].path)
    && (forall k, l | 0 <= k < l < |places| :: places[k] < places[l])
  }

  lemma KindMeaning(t: Table, files: seq<File>, i: nat)
    requires Valid(t) && i < |files|
    ensures KindOf(t, files, i) ==
            if !IsStored(t, files[i].path) || !IsFirst(files, i) then New
            else if IsCurrent(t, files[i]) then Unchanged else Changed
  {
    var f := files[i];
    forall key | key in t && t[key].path == f.path ensures key == Fold(f.path) {
    }
    hide Fold;
  }

  /** The places of the files of one kind, and the list they make. */
  lemma {:induction false} PickListing(t: Table, files: seq<File>, n: nat, kind: Kind) returns (places: seq<nat>)
    requires n <= |files|
    ensures IsListing(files, places, Pick(t, files, n, kind))
    ensures forall i :: i in places <==> 0 <= i < n && KindOf(t, files, i) == kind
  {
    hide KindOf;
    if n == 0 {
      places := [];
    } else {
      places := PickListing(t, files, n - 1, kind);
      assert forall k | 0 <= k < |places| :: places[k] in places;
      if KindOf(t, files, n - 1) == kind { places := places + [n - 1]; }
    }
  }

  /** What a diff says: a file is unchanged exactly when it is the first with its path and a row that is not deleted
      has that path, that size and a time no earlier; changed when there is only a row with another size or an
      earlier time; new when there is none, or the path came up before.  Each list is in the order of discovery,
      and the paths gone are those of rows that no file has. */
  lemma DiffMeaning(t: Table, files: seq<File>, r: ScanResult)
    returns (added: seq<nat>, changed: seq<nat>, same: seq<nat>)
    requires Valid(t) && IsDiff(t, files, r)
    ensures IsListing(files, added, r.newFiles) && IsListing(files, changed, r.changedFiles)
    ensures IsListing(files, same, r.unchangedFiles)
    ensures forall i | 0 <= i < |files| ::
      && (i in same <==> IsFirst(files, i) && IsCurrent(t, files[i]))
      && (i in changed <==> IsFirst(files, i) && IsStored(t, files[i].path) && !IsCurrent(t, files[i]))
      && (i in added <==> !IsFirst(files, i) || !IsStored(t, files[i].path))
    ensures forall p :: p in r.goneFiles <==> IsStored(t, p) && forall i | 0 <= i < |files| :: files[i].path != p
  {
    added := PickListing(t, files, |files|, New);
    changed := PickListing(t, files, |files|, Changed);
    same := PickListing(t, files, |files|, Unchanged);
    forall i | 0 <= i < |files|
      ensures KindOf(t, files, i) ==
              if !IsStored(t, files[i].path) || !IsFirst(files, i) then New
              else if IsCurrent(t, files[i]) then Unchanged else Changed
    {
      KindMeaning(t, files, i);
    }
    hide KindOf, Pick;
    assert forall f: File :: IsCurrent(t, f) ==> IsStored(t, f.path);
    assert forall p :: p in Live(t) <==> IsStored(t, p);
  }

  /** Each file has one kind. */
  lemma {:induction false} DiffIsPartition(t: Table, files: seq<File>, n: nat, p: string)
    requires n <= |files|
    ensures IsPartition(t, files, n, p)
  {
    if n == 0 {
      assert Times([], p) == 0;
    } else {
      DiffIsPartition(t, files, n - 1, p);
      PartitionStep(t, files, n, p);
    }
  }

  lemma PartitionStep(t: Table, files: seq<File>, n: nat, p: string)
    requires 0 < n <= |files| && IsPartition(t, files, n - 1, p)
    ensures IsPartition(t, files, n, p)
  {
    hide KindOf, Pick, Paths, Times;
    PickStep(t, files, n, New, p);
    PickStep(t, files, n, Changed, p);
    PickStep(t, files, n, Unchanged, p);
    PathsStep(files, n, p);
    var kind := KindOf(t, files, n - 1);
    assert kind == New || kind == Changed || kind == Unchanged;
  }

  lemma PathsStep(files: seq<File>, n: nat, p: string)
    requires 0 < n <= |files|
    ensures Times(Paths(files, n), p) == Times(Paths(files, n - 1), p) + if files[n - 1].path == p then 1 else 0
  {
  }

  lemma PickStep(t: Table, files: seq<File>, n: nat, kind: Kind, p: string)
    requires 0 < n <= |files|
    ensures Times(Pick(t, files, n, kind), p) == Times(Pick(t, files, n - 1, kind), p) +
            if KindOf(t, files, n - 1) == kind && files[n - 1].path == p then 1 else 0
  {
    hide KindOf;
    var before := Pick(t, files, n - 1, kind);
    assert before + [] == before;
  }

  lemma {:induction false} PickMeaning(t: Table, files: seq<File>, n: nat, kind: Kind)
    requires n <= |files|
    ensures Pick(t, files, n, kind) == [] <==> forall i | 0 <= i < n :: KindOf(t, files, i) != kind
  {
    hide KindOf;
    if n > 0 { PickMeaning(t, files, n - 1, kind); }
  }

  // ----- Writing the outcome back -----

  /** The files that a diff asks to write. */
  ghost predicate ToWrite(t: Table, files: seq<File>, f: File) {
    exists i :: 0 <= i < |files| && files[i] == f && KindOf(t, files, i) != Unchanged
  }

  lemma {:induction false} PickMembers(t: Table, files: seq<File>, n: nat, kind: Kind, p: string)
    requires n <= |files|
    ensures p in Pick(t, files, n, kind) <==>
            exists i :: 0 <= i < n && files[i].path == p && KindOf(t, files, i) == kind
  {
    hide KindOf;
    if n > 0 { PickMembers(t, files, n - 1, kind, p); }
  }

  /** The paths a diff lists as new or changed are those of the files to be written. */
  lemma DiffNamesTheWrites(t: Table, files: seq<File>, r: ScanResult, p: string)
    requires IsDiff(t, files, r)
    ensures p in r.newFiles + r.changedFiles <==> exists f :: ToWrite(t, files, f) && f.path == p
  {
    PickMembers(t, files, |files|, New, p);
    PickMembers(t, files, |files|, Changed, p);
    hide KindOf, Pick;
    if p in r.newFiles + r.changedFiles {
      var i :| 0 <= i < |files| && files[i].path == p && KindOf(t, files, i) != Unchanged;
      assert ToWrite(t, files, files[i]);
    }
  }

  function UpsertAll(t: Table, writes: seq<File>, now: File -> int): Table {
    if writes == [] then t
    else
      var last := writes[|writes| - 1];
      Upsert(UpsertAll(t, writes[..|writes| - 1], now), last, now(last))
  }

  function MarkAll(t: Table, paths: seq<string>): Table {
    if paths == [] then t else MarkGone(MarkAll(t, paths[..|paths| - 1]), paths[|paths| - 1])
  }

  /** Every file to be written is written, in whatever order and each at its own time, and then every path that
      is gone is marked. */
  ghost predicate WrittenBack(t: Table, files: seq<File>, now: File -> int, written: Table) {
    exists writes, gone ::
      && (forall f :: f in writes <==> ToWrite(t, files, f))
      && (forall p :: p in gone <==> p in Gone(t, files))
      && written == MarkAll(UpsertAll(t, writes, now), gone)
  }

  /** A diff that finds nothing to do. */
  ghost predicate Settled(t: Table, files: seq<File>) {
    && Pick(t, files, |files|, New) == []
    && Pick(t, files, |files|, Changed) == []
    && Gone(t, files) == {}
  }

  /** No two discovered paths differ in case only, or not at all. */
  ghost predicate DistinctPaths(files: seq<File>) {
    forall i, j | 0 <= i < j < |files| :: Fold(files[i].path) != Fold(files[j].path)
  }

  /** Any row a discovered file would be written to is a live one of exactly that spelling. */
  ghost predicate RowsFit(t: Table, files: seq<File>) {
    forall i | 0 <= i < |files| && Fold(files[i].path) in t ::
      IsLive(t, Fold(files[i].path)) && t[Fold(files[i].path)].path == files[i].path
  }

  /** No file is written before its own modification time. */
  ghost predicate WrittenInTime(t: Table, files: seq<File>, now: File -> int) {
    forall f | ToWrite(t, files, f) :: now(f) >= f.mtime
  }

  // ----- A diff that follows -----

  /** Rows are never removed, renamed or brought back to life. */
  ghost predicate Extends(t: Table, later: Table) {
    forall k | k in t :: k in later && later[k].path == t[k].path && (t[k].deleted ==> later[k].deleted)
  }

  lemma {:induction false} UpsertAllExtends(t: Table, writes: seq<File>, now: File -> int)
    requires Valid(t)
    ensures Valid(UpsertAll(t, writes, now)) && Extends(t, UpsertAll(t, writes, now))
  {
    if writes != [] { UpsertAllExtends(t, writes[..|writes| - 1], now); }
  }

  /** Just the rows at these paths are deleted. */
  ghost predicate Marked(t: Table, paths: seq<string>, later: Table) {
    && later.Keys == t.Keys
    && forall k | k in t :: later[k] == t[k].(deleted := t[k].deleted || exists p :: p in paths && Fold(p) == k)
  }

  lemma {:induction false} MarkAllMarks(t: Table, paths: seq<string>)
    ensures Marked(t, paths, MarkAll(t, paths))
  {
    if paths != [] {
      var before, last := paths[..|paths| - 1], paths[|paths| - 1];
      MarkAllMarks(t, before);
      MarkOne(t, before, last, paths, MarkAll(t, before));
    }
  }

  lemma MarkOne(t: Table, before: seq<string>, last: string, paths: seq<string>, mid: Table)
    requires paths == before + [last] && Marked(t, before, mid)
    ensures Marked(t, paths, MarkGone(mid, last))
  {
    hide Fold;
    assert forall p :: p in paths <==> p in before || p == last;
  }

  lemma MarkAllMeaning(t: Table, paths: seq<string>)
    requires Valid(t)
    ensures Valid(MarkAll(t, paths)) && Extends(t, MarkAll(t, paths)) && Marked(t, paths, MarkAll(t, paths))
  {
    MarkAllMarks(t, paths);
    hide MarkAll;
  }

  /** A key that no write touches keeps its row. */
  lemma {:induction false} UntouchedKey(t: Table, writes: seq<File>, now: File -> int, key: string)
    requires forall f | f in writes :: Fold(f.path) != key
    ensures key in UpsertAll(t, writes, now) <==> key in t
    ensures key in t ==> UpsertAll(t, writes, now)[key] == t[key]
  {
    if writes != [] { UntouchedKey(t, writes[..|writes| - 1], now, key); }
  }

  /** A key that one file writes ends with that file's size and time. */
  lemma {:induction false} WrittenKey(t: Table, writes: seq<File>, now: File -> int, f: File)
    requires f in writes && forall g | g in writes && Fold(g.path) == Fold(f.path) :: g == f
    ensures var key := Fold(f.path);
            key in UpsertAll(t, writes, now) && UpsertAll(t, writes, now)[key] == Upsert(t, f, now(f))[key]
  {
    var before, last := writes[..|writes| - 1], writes[|writes| - 1];
    if f in before {
      WrittenKey(t, before, now, f);
    } else {
      UntouchedKey(t, before, now, Fold(f.path));
    }
  }

  lemma SettledMeaning(t: Table, files: seq<File>)
    ensures Settled(t, files) <==>
            (forall i | 0 <= i < |files| :: KindOf(t, files, i) == Unchanged) && Gone(t, files) == {}
  {
    PickMeaning(t, files, |files|, New);
    PickMeaning(t, files, |files|, Changed);
    hide KindOf;
  }

  lemma LiveRow(t: Table, path: string)
    requires Valid(t)
    ensures path in Live(t) <==> IsLive(t, Fold(path)) && t[Fold(path)].path == path
  {
  }

  lemma SettledNeedsDistinct(t: Table, files: seq<File>)
    requires Valid(t) && Settled(t, files)
    ensures DistinctPaths(files)
  {
    SettledMeaning(t, files);
    hide Fold, Pick, Gone, UpToDate;
    forall i, j | 0 <= i < j < |files| ensures Fold(files[i].path) != Fold(files[j].path) {
      LiveRow(t, files[i].path);
      LiveRow(t, files[j].path);
      assert KindOf(t, files, i) == Unchanged && KindOf(t, files, j) == Unchanged;
    }
  }

  lemma SettledNeedsFit(t: Table, later: Table, files: seq<File>)
    requires Valid(t) && Valid(later) && Extends(t, later) && Settled(later, files)
    ensures RowsFit(t, files)
  {
    SettledMeaning(later, files);
    hide Fold, Pick, Gone, UpToDate;
    forall i | 0 <= i < |files| && Fold(files[i].path) in t
      ensures IsLive(t, Fold(files[i].path)) && t[Fold(files[i].path)].path == files[i].path
    {
      assert KindOf(later, files, i) == Unchanged;
      LiveRow(later, files[i].path);
    }
  }

  lemma DistinctAt(files: seq<File>, i: nat, j: nat)
    requires DistinctPaths(files) && i < |files| && j < |files|
    ensures Fold(files[i].path) == Fold(files[j].path) ==> i == j
  {
  }

  /** With distinct paths a file's key is written by that file alone. */
  lemma OneWriter(t: Table, files: seq<File>, writes: seq<File>, f: File)
    requires DistinctPaths(files) && f in files && forall g | g in writes :: ToWrite(t, files, g)
    ensures forall g | g in writes && Fold(g.path) == Fold(f.path) :: g == f
  {
    var i :| 0 <= i < |files| && files[i] == f;
    forall g | g in writes && Fold(g.path) == Fold(f.path) ensures g == f {
      var j :| 0 <= j < |files| && files[j] == g;
      DistinctAt(files, i, j);
    }
  }

  lemma SettledNeedsTime(
      t: Table, files: seq<File>, writes: seq<File>, gone: seq<string>, now: File -> int, f: File)
    requires Valid(t) && DistinctPaths(files) && ToWrite(t, files, f)
    requires forall g :: g in writes <==> ToWrite(t, files, g)
    requires Settled(MarkAll(UpsertAll(t, writes, now), gone), files)
    ensures now(f) >= f.mtime
  {
    var mid := UpsertAll(t, writes, now);
    var later := MarkAll(mid, gone);
    SettledMeaning(later, files);
    var i :| 0 <= i < |files| && files[i] == f;
    assert KindOf(later, files, i) == Unchanged;
    OneWriter(t, files, writes, f);
    WrittenKey(t, writes, now, f);
    UpsertAllExtends(t, writes, now);
    MarkAllMeaning(mid, gone);
    hide Fold, Pick, Gone, Live, MarkAll, UpsertAll;
  }

  /** Under the three conditions a discovered file's row is live, spelled as found and up to date. */
  lemma FileIsSettled(
      t: Table, files: seq<File>, writes: seq<File>, gone: seq<string>, now: File -> int, i: nat)
    requires Valid(t) && DistinctPaths(files) && RowsFit(t, files) && WrittenInTime(t, files, now) && i < |files|
    requires forall g :: g in writes <==> ToWrite(t, files, g)
    requires forall p :: p in gone <==> p in Gone(t, files)
    ensures var later := MarkAll(UpsertAll(t, writes, now), gone);
            files[i].path in Live(later) && UpToDate(later, files[i])
  {
    var f := files[i];
    var key := Fold(f.path);
    var mid := UpsertAll(t, writes, now);
    OneWriter(t, files, writes, f);
    NotMarked(t, files, gone, i);
    UpsertAllExtends(t, writes, now);
    MarkAllMeaning(mid, gone);
    if f in writes {
      WrittenKey(t, writes, now, f);
    } else {
      UntouchedKey(t, writes, now, key);
      assert KindOf(t, files, i) == Unchanged;
      LiveRow(t, f.path);
    }
    LiveRow(MarkAll(mid, gone), f.path);
    hide Fold, Pick, Gone, Live, MarkAll, UpsertAll, KindOf, Known;
  }

  lemma NotMarked(t: Table, files: seq<File>, gone: seq<string>, i: nat)
    requires Valid(t) && RowsFit(t, files) && i < |files|
    requires forall p :: p in gone <==> p in Gone(t, files)
    ensures forall p | p in gone :: Fold(p) != Fold(files[i].path)
  {
    forall p | p in gone ensures Fold(p) != Fold(files[i].path) {
      LiveRow(t, p);
      assert p in Live(t) && p !in PathsOf(files, |files|);
      assert files[i].path in PathsOf(files, |files|);
    }
  }

  lemma SettledWhen(t: Table, files: seq<File>, writes: seq<File>, gone: seq<string>, now: File -> int)
    requires Valid(t) && DistinctPaths(files) && RowsFit(t, files) && WrittenInTime(t, files, now)
    requires forall g :: g in writes <==> ToWrite(t, files, g)
    requires forall p :: p in gone <==> p in Gone(t, files)
    ensures Settled(MarkAll(UpsertAll(t, writes, now), gone), files)
  {
    var mid := UpsertAll(t, writes, now);
    var later := MarkAll(mid, gone);
    forall i | 0 <= i < |files| ensures KindOf(later, files, i) == Unchanged {
      FileIsSettled(t, files, writes, gone, now, i);
      forall j | 0 <= j < i ensures files[j].path != files[i].path {
        assert Fold(files[j].path) != Fold(files[i].path);
      }
    }
    forall p | p in Live(later) ensures p in PathsOf(files, |files|) {
      NoOtherIsLive(t, files, writes, gone, now, p);
    }
    SettledMeaning(later, files);
  }

  lemma NoOtherIsLive(t: Table, files: seq<File>, writes: seq<File>, gone: seq<string>, now: File -> int, p: string)
    requires Valid(t)
    requires forall g :: g in writes <==> ToWrite(t, files, g)
    requires forall q :: q in gone <==> q in Gone(t, files)
    requires p in Live(MarkAll(UpsertAll(t, writes, now), gone))
    requires DistinctPaths(files) && RowsFit(t, files)
    ensures p in PathsOf(files, |files|)
  {
    var mid := UpsertAll(t, writes, now);
    var key := Fold(p);
    UpsertAllExtends(t, writes, now);
    MarkAllMeaning(mid, gone);
    LiveRow(MarkAll(mid, gone), p);
    if f :| f in writes && Fold(f.path) == key {
      WrittenBy(t, files, writes, now, f);
    } else {
      UntouchedKey(t, writes, now, key);
      LiveRow(t, p);
      assert p !in gone;
    }
  }

  lemma WrittenBy(t: Table, files: seq<File>, writes: seq<File>, now: File -> int, f: File)
    requires DistinctPaths(files) && RowsFit(t, files) && f in writes
    requires forall g :: g in writes <==> ToWrite(t, files, g)
    ensures f.path in PathsOf(files, |files|)
    ensures Fold(f.path) in UpsertAll(t, writes, now) && UpsertAll(t, writes, now)[Fold(f.path)].path == f.path
  {
    var i :| 0 <= i < |files| && files[i] == f && KindOf(t, files, i) != Unchanged;
    OneWriter(t, files, writes, f);
    WrittenKey(t, writes, now, f);
  }

  /** Writing the outcome of a diff back settles the library exactly when no two discovered paths differ in case
      only, no discovered file meets a row that is deleted or spelled differently, and no file is written before
      its own modification time. */
  lemma SettledExactly(t: Table, files: seq<File>, now: File -> int, written: Table)
    requires Valid(t) && WrittenBack(t, files, now, written)
    ensures Settled(written, files) <==>
            DistinctPaths(files) && RowsFit(t, files) && WrittenInTime(t, files, now)
  {
    var writes, gone :|
      && (forall f :: f in writes <==> ToWrite(t, files, f))
      && (forall p :: p in gone <==> p in Gone(t, files))
      && written == MarkAll(UpsertAll(t, writes, now), gone);
    hide *;
    if Settled(written, files) {
      UpsertAllExtends(t, writes, now);
      MarkAllMeaning(UpsertAll(t, writes, now), gone);
      ExtendsChains(t, UpsertAll(t, writes, now), written);
      SettledNeedsDistinct(written, files);
      SettledNeedsFit(t, written, files);
      AllInTime(t, files, writes, gone, now);
    }
    if DistinctPaths(files) && RowsFit(t, files) && WrittenInTime(t, files, now) {
      SettledWhen(t, files, writes, gone, now);
    }
  }

  /** A file that was marked gone and has come back: its row stays deleted however often it is written, and
      every diff finds it new again. */
  lemma DeletedRowStaysNew(now: File -> int)
    requires now(File("a", 2, 3)) == 9
    ensures var t, files := map["a" := Row("a", 1, 5, true)], [File("a", 2, 3)];
            var written := map["a" := Row("a", 2, 9, true)];
            && Valid(t) && !RowsFit(t, files) && Pick(t, files, 1, New) == ["a"]
            && WrittenBack(t, files, now, written) && Pick(written, files, 1, New) == ["a"]
  {
    var t, files := map["a" := Row("a", 1, 5, true)], [File("a", 2, 3)];
    var written := map["a" := Row("a", 2, 9, true)];
    assert Fold("a") == "a" by { assert Fold("") == "" && "a"[1..] == "" && FoldChar('a') == 'a'; }
    hide Fold;
    NewAlone(t, files);
    NewAlone(written, files);
    assert "a" !in Live(t);
    var writes, gone: seq<string> := files, [];
    forall f ensures f in writes <==> ToWrite(t, files, f) {
      if f in writes { assert files[0] == f; }
    }
    assert writes[..0] == [] && UpsertAll(t, [], now) == t;
    assert UpsertAll(t, writes, now) == written;
    assert MarkAll(written, gone) == written;
  }

  lemma NewAlone(t: Table, files: seq<File>)
    requires |files| == 1 && files[0].path !in Live(t)
    ensures KindOf(t, files, 0) == New && Pick(t, files, 1, New) == [files[0].path]
  {
    assert Pick(t, files, 0, New) == [];
  }

  lemma ExtendsChains(a: Table, b: Table, c: Table)
    requires Extends(a, b) && Extends(b, c)
    ensures Extends(a, c)
  {
  }

  lemma AllInTime(t: Table, files: seq<File>, writes: seq<File>, gone: seq<string>, now: File -> int)
    requires Valid(t) && DistinctPaths(files)
    requires forall g :: g in writes <==> ToWrite(t, files, g)
    requires Settled(MarkAll(UpsertAll(t, writes, now), gone), files)
    ensures WrittenInTime(t, files, now)
  {
    forall f | ToWrite(t, files, f) ensures now(f) >= f.mtime {
      SettledNeedsTime(t, files, writes, gone, now, f);
    }
  }

  lemma PathsAreLive(t: Table, paths: set<string>)
    requires Valid(t) && forall p :: p in paths <==> IsLive(t, Fold(p)) && t[Fold(p)].path == p
    ensures paths == Live(t)
  {
    forall p ensures p in paths <==> p in Live(t) { LiveRow(t, p); }
  }

  lemma NothingYet(t: Table, files: seq<File>)
    ensures Live(t) - PathsOf(files, 0) == Live(t)
    ensures forall kind :: Pick(t, files, 0, kind) == []
  {
  }

  /** What the i-th file adds to the lists and takes from the paths still to be found. */
  lemma DiffStep(t: Table, files: seq<File>, i: nat)
    requires i < |files|
    ensures var f, left := files[i], Live(t) - PathsOf(files, i);
            var kind := if f.path !in left then New else if UpToDate(t, f) then Unchanged else Changed;
            && Live(t) - PathsOf(files, i + 1) == left - {f.path}
            && forall k :: Pick(t, files, i + 1, k) == if k == kind then Pick(t, files, i, k) + [f.path]
                                                       else Pick(t, files, i, k)
  {
    hide UpToDate, Live;
    var f, left := files[i], Live(t) - PathsOf(files, i);
    assert PathsOf(files, i + 1) == PathsOf(files, i) + {f.path};
    assert f.path in left <==> Known(t, files, i);
    forall k ensures Pick(t, files, i, k) + [] == Pick(t, files, i, k) {
    }
  }

  lemma LookupIs(t: Table, path: string, row: Option<Row>)
    requires Valid(t)
    requires row.Some? ==> row.value in t.Values && !row.value.deleted && Fold(row.value.path) == Fold(path)
    requires row.None? ==> forall r | r in t.Values && Fold(r.path) == Fold(path) :: r.deleted
    ensures row == Lookup(t, path)
  {
    hide Fold;
    if row.Some? {
      var k :| k in t && t[k] == row.value;
      assert k == Fold(path);
    } else if Fold(path) in t {
      assert t[Fold(path)] in t.Values;
    }
  }

  lemma UpsertMeaning(t: Table, f: File, now: int)
    requires Valid(t)
    ensures Valid(Upsert(t, f, now))
    ensures f.path !in Live(Upsert(t, f, now)) <==>
              exists r | r in t.Values && Fold(r.path) == Fold(f.path) :: r.deleted || r.path != f.path
  {
    hide Fold, Live;
    LiveRow(Upsert(t, f, now), f.path);
    if Fold(f.path) in t { assert t[Fold(f.path)] in t.Values; }
  }

  // ----- The source's objects -----

  /** The library's database, as far as the tracks table goes. */
  class Database {
    var rows: Table

    ghost predicate IsValid()
      reads this
    {
      Valid(rows)
    }

    constructor (rows: Table)
      requires Valid(rows)
      ensures IsValid() && this.rows == rows
    {
      this.rows := rows;
    }

    /** Each path of a row that is not deleted, once, in some order. */
    method GetAllPaths() returns (paths: seq<string>)
      requires IsValid()
      ensures forall p :: p in paths <==> IsLive(rows, Fold(p)) && rows[Fold(p)].path == p
      ensures forall i, j | 0 <= i < j < |paths| :: Fold(paths[i]) != Fold(paths[j])
    {
      paths := [];
      var rest := rows.Keys;
      while rest != {}
        invariant rest <= rows.Keys
        invariant forall p | p in paths :: Fold(p) !in rest && IsLive(rows, Fold(p)) && rows[Fold(p)].path == p
        invariant forall k | k in rows.Keys - rest && IsLive(rows, k) :: rows[k].path in paths
        invariant forall i, j | 0 <= i < j < |paths| :: Fold(paths[i]) != Fold(paths[j])
        decreases rest
      {
        hide Fold;
        var k :| k in rest;
        if !rows[k].deleted { paths := paths + [rows[k].path]; }
        rest := rest - {k};
      }
    }

    /** The row whose path is the same up to ASCII case, when it is not deleted. */
    method GetTrackByPath(path: string) returns (row: Option<Row>)
      requires IsValid()
      ensures row.Some? ==> row.value in rows.Values && !row.value.deleted && Fold(row.value.path) == Fold(path)
      ensures row.None? ==> forall r | r in rows.Values && Fold(r.path) == Fold(path) :: r.deleted
    {
      var key := Fold(path);
      if key in rows && !rows[key].deleted { return Some(rows[key]); }
      return None;
    }

    /** INSERT, and UPDATE where the path is taken: afterwards a row with the file's size and the given time is
        there.  Which spelling it has and whether it is deleted it keeps from before, and every other row stays
        as it is. */
    method UpsertTrack(f: File, now: int)
      requires IsValid()
      modifies this
      ensures IsValid() && rows == Upsert(old(rows), f, now)
      ensures rows.Keys == old(rows).Keys + {Fold(f.path)}
      ensures forall k | k in old(rows) && k != Fold(f.path) :: rows[k] == old(rows)[k]
      ensures rows[Fold(f.path)].size == f.size && rows[Fold(f.path)].updatedAt == now
      ensures f.path !in Live(rows) <==>
                exists r | r in old(rows).Values && Fold(r.path) == Fold(f.path) :: r.deleted || r.path != f.path
    {
      UpsertMeaning(rows, f, now);
      var key := Fold(f.path);
      if key !in rows {
        rows := rows[key := Row(f.path, f.size, now, false)];
      } else {
        rows := rows[key := rows[key].(size := f.size, updatedAt := now)];
      }
    }

    /** The rows at these paths, and no others, become deleted. */
    method MarkPathsGone(paths: seq<string>)
      requires IsValid()
      modifies this
      ensures IsValid() && rows == MarkAll(old(rows), paths) && Marked(old(rows), paths, rows)
    {
      MarkAllMeaning(rows, paths);
      for i := 0 to |paths|
        invariant rows == MarkAll(old(rows), paths[..i])
      {
        assert paths[..i + 1][..i] == paths[..i];
        var key := Fold(paths[i]);
        if key in rows && !rows[key].deleted {
          rows := rows[key := rows[key].(deleted := true)];
        }
      }
      assert paths[..|paths|] == paths;
    }
  }

  class Scanner {
    var db: Database?

    constructor ()
      ensures db == null
    {
      db := null;
    }

    method SetDatabase(db: Database?)
      modifies this
      ensures this.db == db
    {
      this.db := db;
    }

    method Diff(discovered: seq<File>) returns (r: Result<ScanResult, Error>)
      requires db != null ==> db.IsValid()
      ensures db == null ==> r == Failure(NoDatabase)
      ensures db != null ==> r.Success? && IsDiff(db.rows, discovered, r.value)
    {
      if db == null { return Failure(NoDatabase); }
      hide Pick, KindOf, Live, PathsOf, UpToDate, Valid;
      var existing := ExistingPaths();
      NothingYet(db.rows, discovered);
      var added, changed, same := [], [], [];
      for i := 0 to |discovered|
        invariant existing == Live(db.rows) - PathsOf(discovered, i)
        invariant added == Pick(db.rows, discovered, i, New)
        invariant changed == Pick(db.rows, discovered, i, Changed)
        invariant same == Pick(db.rows, discovered, i, Unchanged)
      {
        var f := discovered[i];
        DiffStep(db.rows, discovered, i);
        if f.path !in existing {
          added := added + [f.path];
        } else {
          var upToDate := MatchesRow(f);
          if !upToDate {
            changed := changed + [f.path];
          } else {
            same := same + [f.path];
          }
          existing := existing - {f.path};
        }
      }
      var gone := SortStrings(existing);
      return Success(ScanResult(added, changed, same, gone));
    }

    /** The set the source builds from the paths it was given. */
    method ExistingPaths() returns (existing: set<string>)
      requires db != null && db.IsValid()
      ensures existing == Live(db.rows)
    {
      var paths := db.GetAllPaths();
      existing := set p | p in paths;
      PathsAreLive(db.rows, existing);
    }

    /** Whether the row at the file's path has its size and is no older. */
    method MatchesRow(f: File) returns (upToDate: bool)
      requires db != null && db.IsValid()
      ensures upToDate <==> UpToDate(db.rows, f)
    {
      var row := db.GetTrackByPath(f.path);
      LookupIs(db.rows, f.path, row);
      return !(row.None? || row.value.size != f.size || row.value.updatedAt < f.mtime);
    }
  }
}
