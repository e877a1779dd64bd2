/**
  The "Recent Files" view (`RecentFilesTreeDataProvider` in
  src/extension.ts): index every file below the first workspace folder, stat
  each one and list them newest first; label each item with its file name and,
  when it was modified today, with its time of day.
 */
module RecentFiles {
  import opened Paths
  import opened FileSystem

  predicate NoDup<T(==)>(s: seq<T>) {
    forall i, j :: 0 <= i < j < |s| ==> s[i] != s[j]
  }

  // ---------------------------------------------------------------------------
  // getFilesRecursively
  // ---------------------------------------------------------------------------

  /** What one readdir entry of `dir` contributes: a file its own path, a directory all files below it. */
  function EntryFiles(dir: Path, e: Node): seq<Path>
    decreases e
  {
    match e
    case File(name, _) => [dir + [name]]
    case Dir(name, _, cs) => FilesUnder(dir + [name], cs)
  }

  /**
    `getFilesRecursively(dir)` once `readdir(dir)` has returned `es`: each
    entry mapped to its files, in readdir order, and the results flattened.
    Every path is `dir` joined with the names on the way down.
   */
  function FilesUnder(dir: Path, es: seq<Node>): (r: seq<Path>)
    ensures forall p :: p in r ==> |p| > |dir| && p[..|dir|] == dir
    decreases es
  {
    if es == [] then []
    else
      var head := EntryFiles(dir, es[0]);
      assert forall p :: p in head ==> |p| > |dir| && p[..|dir|] == dir by {
        if es[0].Dir? {
          var d := dir + [es[0].name];
          forall p | p in head ensures |p| > |dir| && p[..|dir|] == dir {
            assert p[..|d|] == d;
            assert p[..|dir|] == d[..|dir|];
          }
        }
      }
      head + FilesUnder(dir, es[1..])
  }

  /** `getFilesRecursively(dir)`; None when `readdir(dir)` rejects. */
  function GetFilesRecursively(fs: Node, dir: Path): (r: Option<seq<Path>>)
    ensures r.Some? <==> ReadDir(fs, dir).Some?
    ensures r.Some? ==> forall p :: p in r.value ==> |p| > |dir| && p[..|dir|] == dir
  {
    match ReadDir(fs, dir)
    case None => None
    case Some(es) => Some(FilesUnder(dir, es))
  }

  /** Listing consecutive runs of entries splices their results in order. */
  lemma {:induction false} FilesUnderAppend(dir: Path, a: seq<Node>, b: seq<Node>)
    ensures FilesUnder(dir, a + b) == FilesUnder(dir, a) + FilesUnder(dir, b)
  {
    if a != [] {
      assert (a + b)[0] == a[0];
      assert (a + b)[1..] == a[1..] + b;
      assert FilesUnder(dir, a + b) == EntryFiles(dir, a[0]) + FilesUnder(dir, a[1..] + b);
      FilesUnderAppend(dir, a[1..], b);
    } else {
      assert a + b == b;
    }
  }

  /** The entry at index `k` witnesses a file path through it. */
  lemma FileInAt(es: seq<Node>, k: nat, rel: Path)
    requires k < |es| && |rel| > 0 && es[k].name == rel[0]
    requires |rel| == 1 ==> es[k].File?
    requires |rel| > 1 ==> es[k].Dir? && FileIn(es[k].children, rel[1..])
    ensures FileIn(es, rel)
  {
  }

  /** A file path through the later entries is one through all of them. */
  lemma FileInTail(es: seq<Node>, rel: Path)
    requires es != [] && FileIn(es[1..], rel)
    ensures FileIn(es, rel)
  {
    var k :| 0 <= k < |es[1..]| && es[1..][k].name == rel[0] &&
      if |rel| == 1 then es[1..][k].File?
      else es[1..][k].Dir? && FileIn(es[1..][k].children, rel[1..]);
    assert es[k + 1] == es[1..][k];
    FileInAt(es, k + 1, rel);
  }

  /** Only files: every path listed leads through directories to a non-directory entry. */
  lemma {:induction false} FilesUnderSound(dir: Path, es: seq<Node>, p: Path)
    requires p in FilesUnder(dir, es)
    ensures IsPrefix(dir, p) && FileIn(es, p[|dir|..])
    decreases es, 1
  {
    if p in EntryFiles(dir, es[0]) {
      HeadFilesSound(dir, es, p);
    } else {
      FilesUnderSound(dir, es[1..], p);
      FileInTail(es, p[|dir|..]);
    }
  }

  /** The paths the first entry contributes lead to files through that entry. */
  lemma {:induction false} HeadFilesSound(dir: Path, es: seq<Node>, p: Path)
    requires es != [] && p in EntryFiles(dir, es[0])
    ensures IsPrefix(dir, p) && FileIn(es, p[|dir|..])
    decreases es, 0
  {
    var rel := p[|dir|..];
    match es[0]
    case File(name, _) =>
      assert p == dir + [name];
      assert rel == [name];
      FileInAt(es, 0, rel);
    case Dir(name, _, cs) =>
      var d := dir + [name];
      FilesUnderSound(d, cs, p);
      assert p[..|d|] == d;
      assert p[..|dir|] == d[..|dir|];
      assert rel[0] == name;
      assert rel[1..] == p[|d|..];
      FileInAt(es, 0, rel);
  }

  /** Every file: each path through directories to a non-directory entry is listed. */
  lemma {:induction false} FilesUnderComplete(dir: Path, es: seq<Node>, rel: Path)
    requires FileIn(es, rel)
    ensures dir + rel in FilesUnder(dir, es)
    decreases es
  {
    var k :| 0 <= k < |es| && es[k].name == rel[0] &&
      if |rel| == 1 then es[k].File?
      else es[k].Dir? && FileIn(es[k].children, rel[1..]);
    if k == 0 {
      if |rel| == 1 {
        assert dir + rel == dir + [es[0].name];
      } else {
        var d := dir + [es[0].name];
        FilesUnderComplete(d, es[0].children, rel[1..]);
        assert d + rel[1..] == dir + rel;
      }
      assert dir + rel in EntryFiles(dir, es[0]);
    } else {
      assert es[1..][k - 1] == es[k];
      FilesUnderComplete(dir, es[1..], rel);
    }
  }

  /** The listing holds exactly the file paths below `dir`. */
  lemma FilesUnderMembership(dir: Path, es: seq<Node>, p: Path)
    ensures p in FilesUnder(dir, es) <==> IsPrefix(dir, p) && FileIn(es, p[|dir|..])
  {
    if p in FilesUnder(dir, es) {
      FilesUnderSound(dir, es, p);
    }
    if IsPrefix(dir, p) && FileIn(es, p[|dir|..]) {
      FilesUnderComplete(dir, es, p[|dir|..]);
      assert dir + p[|dir|..] == p;
    }
  }

  /**
    `getFilesRecursively(dir)` resolves exactly when `readdir(dir)` does, with
    exactly the file paths below `dir` in the tree that `readdir` returned.
   */
  lemma GetFilesRecursivelyMembership(fs: Node, dir: Path, p: Path)
    requires ReadDir(fs, dir).Some?
    ensures GetFilesRecursively(fs, dir).Some?
    ensures p in GetFilesRecursively(fs, dir).value <==> IsPrefix(dir, p) && FileIn(ReadDir(fs, dir).value, p[|dir|..])
  {
    FilesUnderMembership(dir, ReadDir(fs, dir).value, p);
  }

  lemma NoDupAppend<T>(a: seq<T>, b: seq<T>)
    requires NoDup(a) && NoDup(b)
    requires forall x :: x in a ==> x !in b
    ensures NoDup(a + b)
  {
    forall i, j | 0 <= i < j < |a + b| ensures (a + b)[i] != (a + b)[j] {
      if i < |a| && j >= |a| {
        assert (a + b)[i] in a && (a + b)[j] in b;
      }
    }
  }

  /** On a well-formed tree no file is listed twice. */
  lemma {:induction false} FilesUnderNoDup(dir: Path, es: seq<Node>)
    requires WellFormedEntries(es)
    ensures NoDup(FilesUnder(dir, es))
    decreases es
  {
    if es != [] {
      var e := es[0];
      var head := EntryFiles(dir, e);
      var rest := FilesUnder(dir, es[1..]);
      assert WellFormedEntries(es[1..]) by {
        forall i | 0 <= i < |es[1..]| ensures es[1..][i] == es[i + 1] { }
      }
      FilesUnderNoDup(dir, es[1..]);
      if e.Dir? {
        FilesUnderNoDup(dir + [e.name], e.children);
      }
      forall q | q in rest ensures q[|dir|] != e.name {
        FilesUnderSound(dir, es[1..], q);
        var rel := q[|dir|..];
        var k :| 0 <= k < |es[1..]| && es[1..][k].name == rel[0] &&
          if |rel| == 1 then es[1..][k].File?
          else es[1..][k].Dir? && FileIn(es[1..][k].children, rel[1..]);
        assert es[k + 1] == es[1..][k];
      }
      forall p | p in head ensures p[|dir|] == e.name {
        if e.Dir? {
          var d := dir + [e.name];
          assert p[..|d|] == d;
          assert p[|dir|] == p[..|d|][|dir|];
        }
      }
      NoDupAppend(head, rest);
    }
  }

  // ---------------------------------------------------------------------------
  // getFileStat and Promise.all
  // ---------------------------------------------------------------------------

  datatype FileStat = FileStat(path: Path, mtimeMs: int)

  /** `getFileStat(p)`: the path with its modification time; None when `stat` rejects. */
  function GetFileStat(fs: Node, p: Path): (r: Option<FileStat>)
    ensures r.Some? <==> Stat(fs, p).Some?
    ensures r.Some? ==> r.value.path == p
  {
    match Stat(fs, p)
    case None => None
    case Some(n) => Some(FileStat(p, n.mtimeMs))
  }

  /**
    On a well-formed tree `getFileStat` resolves for every indexed path, with
    the modification time of the file entry the walk reached it through.
   */
  lemma IndexedFileStat(fs: Node, dir: Path, p: Path)
    requires WellFormed(fs) && ReadDir(fs, dir).Some?
    requires p in FilesUnder(dir, ReadDir(fs, dir).value)
    ensures IsPrefix(dir, p) && |p| > |dir|
    ensures var n := LookupIn(ReadDir(fs, dir).value, p[|dir|..]);
            n.Some? && n.value.File? && GetFileStat(fs, p) == Some(FileStat(p, n.value.mtimeMs))
  {
    var es := ReadDir(fs, dir).value;
    var rel := p[|dir|..];
    FilesUnderSound(dir, es, p);
    assert dir + rel == p;
    StatFileBelow(fs, dir, rel);
    StatBelow(fs, dir, rel);
  }

  /** `Promise.all(files.map(getFileStat))`: every stat in order, or a rejection if any one rejects. */
  function StatAll(fs: Node, ps: seq<Path>): (r: Option<seq<FileStat>>)
    ensures r.Some? <==> forall i :: 0 <= i < |ps| ==> Stat(fs, ps[i]).Some?
    ensures r.Some? ==> |r.value| == |ps|
    ensures r.Some? ==> forall i :: 0 <= i < |ps| ==>
      r.value[i] == FileStat(ps[i], Stat(fs, ps[i]).value.mtimeMs)
  {
    if ps == [] then Some([])
    else
      match GetFileStat(fs, ps[0])
      case None => None
      case Some(st) =>
        match StatAll(fs, ps[1..])
        case None =>
          assert !forall i :: 0 <= i < |ps| ==> Stat(fs, ps[i]).Some? by {
            var i :| 0 <= i < |ps[1..]| && Stat(fs, ps[1..][i]).None?;
            assert ps[i + 1] == ps[1..][i];
          }
          None
        case Some(rest) =>
          assert forall i :: 1 <= i < |ps| ==> ps[i] == ps[1..][i - 1];
          Some([st] + rest)
  }

  function PathsOf(s: seq<FileStat>): (r: seq<Path>)
    ensures |r| == |s| && forall i :: 0 <= i < |s| ==> r[i] == s[i].path
  {
    if s == [] then [] else [s[0].path] + PathsOf(s[1..])
  }

  // ---------------------------------------------------------------------------
  // fileStats.sort((a, b) => b.mtimeMs - a.mtimeMs)
  // ---------------------------------------------------------------------------

  /** Newest first: modification times never increase along the list. */
  predicate SortedByRecency(s: seq<FileStat>) {
    forall i, j :: 0 <= i < j < |s| ==> s[i].mtimeMs >= s[j].mtimeMs
  }

  /** The entries modified at time `t`, in their order in `s`. */
  function WithMtime(s: seq<FileStat>, t: int): seq<FileStat> {
    if s == [] then []
    else (if s[0].mtimeMs == t then [s[0]] else []) + WithMtime(s[1..], t)
  }

  /** Put `x` before the first entry that is not newer than it. */
  function Insert(x: FileStat, s: seq<FileStat>): (r: seq<FileStat>)
    ensures multiset(r) == multiset(s) + multiset{x}
  {
    if s == [] || s[0].mtimeMs <= x.mtimeMs then [x] + s
    else
      assert s == [s[0]] + s[1..];
      [s[0]] + Insert(x, s[1..])
  }

  /** No entry of an insertion is newer than a bound that holds for `x` and all of `s`. */
  lemma {:induction false} InsertBelow(x: FileStat, s: seq<FileStat>, b: int)
    requires x.mtimeMs <= b && forall i :: 0 <= i < |s| ==> s[i].mtimeMs <= b
    ensures forall j :: 0 <= j < |Insert(x, s)| ==> Insert(x, s)[j].mtimeMs <= b
  {
    if s != [] && s[0].mtimeMs > x.mtimeMs {
      InsertBelow(x, s[1..], b);
      assert Insert(x, s) == [s[0]] + Insert(x, s[1..]);
    }
  }

  /** A newest-first list stays newest first behind an entry at least as new as all of it. */
  lemma SortedCons(h: FileStat, r: seq<FileStat>)
    requires SortedByRecency(r) && forall j :: 0 <= j < |r| ==> r[j].mtimeMs <= h.mtimeMs
    ensures SortedByRecency([h] + r)
  {
    var l := [h] + r;
    forall i, j | 0 <= i < j < |l| ensures l[i].mtimeMs >= l[j].mtimeMs {
      assert l[j] == r[j - 1];
      if i > 0 {
        assert l[i] == r[i - 1];
      }
    }
  }

  /** Inserting into a newest-first list keeps it newest first. */
  lemma {:induction false} InsertSorted(x: FileStat, s: seq<FileStat>)
    requires SortedByRecency(s)
    ensures SortedByRecency(Insert(x, s))
  {
    if s == [] || s[0].mtimeMs <= x.mtimeMs {
      SortedCons(x, s);
    } else {
      var t := s[1..];
      assert forall i :: 0 <= i < |t| ==> t[i] == s[i + 1];
      InsertSorted(x, t);
      InsertBelow(x, t, s[0].mtimeMs);
      SortedCons(s[0], Insert(x, t));
    }
  }

  /**
    `x` goes before every entry with the same time, so among the entries
    modified at any one time the order is `x` first, then as in `s`.
   */
  lemma {:induction false} InsertWithMtime(x: FileStat, s: seq<FileStat>, t: int)
    ensures WithMtime(Insert(x, s), t) == if x.mtimeMs == t then [x] + WithMtime(s, t) else WithMtime(s, t)
  {
    if s == [] || s[0].mtimeMs <= x.mtimeMs {
      assert ([x] + s)[1..] == s;
    } else {
      var r' := Insert(x, s[1..]);
      assert ([s[0]] + r')[1..] == r';
      InsertWithMtime(x, s[1..], t);
    }
  }

  /** The paths of an insertion are the paths before it plus the path inserted. */
  lemma {:induction false} InsertPaths(x: FileStat, s: seq<FileStat>)
    ensures multiset(PathsOf(Insert(x, s))) == multiset(PathsOf(s)) + multiset{x.path}
  {
    if s == [] || s[0].mtimeMs <= x.mtimeMs {
      assert ([x] + s)[1..] == s;
    } else {
      var r' := Insert(x, s[1..]);
      InsertPaths(x, s[1..]);
      assert ([s[0]] + r')[1..] == r';
    }
  }

  /**
    The comparator `b.mtimeMs - a.mtimeMs` with a stable sort (required of
    `Array.prototype.sort` since ECMAScript 2019): newest first and a
    permutation of the input. SortStable adds that entries with equal
    times keep their relative order.
   */
  function SortByRecency(s: seq<FileStat>): (r: seq<FileStat>)
    ensures multiset(r) == multiset(s)
    ensures SortedByRecency(r)
  {
    if s == [] then []
    else
      var r' := SortByRecency(s[1..]);
      assert s == [s[0]] + s[1..];
      InsertSorted(s[0], r');
      Insert(s[0], r')
  }

  /** Among the entries modified at any one time, the sorted order is the input order. */
  lemma {:induction false} SortStable(s: seq<FileStat>, t: int)
    ensures WithMtime(SortByRecency(s), t) == WithMtime(s, t)
  {
    if s != [] {
      var r' := SortByRecency(s[1..]);
      assert SortByRecency(s) == Insert(s[0], r');
      SortStable(s[1..], t);
      InsertWithMtime(s[0], r', t);
    }
  }

  /** Sorting permutes the paths. */
  lemma {:induction false} SortPaths(s: seq<FileStat>)
    ensures multiset(PathsOf(SortByRecency(s))) == multiset(PathsOf(s))
  {
    if s != [] {
      SortPaths(s[1..]);
      InsertPaths(s[0], SortByRecency(s[1..]));
    }
  }

  // ---------------------------------------------------------------------------
  // getChildren
  // ---------------------------------------------------------------------------

  /** Index `root`, stat every file and sort newest first; None when a readdir or stat rejects. */
  function RankedStats(fs: Node, root: Path): Option<seq<FileStat>> {
    match GetFilesRecursively(fs, root)
    case None => None
    case Some(files) =>
      match StatAll(fs, files)
      case None => None
      case Some(stats) => Some(SortByRecency(stats))
  }

  /**
    `getChildren()`: `workspaceFolders` undefined (None) gives the empty list;
    otherwise only the first folder is indexed, and an empty folder list makes
    `workspaceFolders[0].uri` throw. None is a rejected promise.
   */
  function GetChildren(fs: Node, folders: Option<seq<Path>>): (r: Option<seq<Path>>)
    ensures folders.None? ==> r == Some([])
    ensures folders == Some([]) ==> r.None?
    ensures folders.Some? && folders.value != [] ==> (r.Some? <==> RankedStats(fs, folders.value[0]).Some?)
  {
    match folders
    case None => Some([])
    case Some(fss) =>
      if fss == [] then None
      else
        match RankedStats(fs, fss[0])
        case None => None
        case Some(stats) => Some(PathsOf(stats))
  }

  lemma NoDupMultiset<T>(s: seq<T>, x: T)
    requires NoDup(s)
    ensures multiset(s)[x] == if x in s then 1 else 0
  {
    if s != [] {
      assert s == [s[0]] + s[1..];
      assert NoDup(s[1..]) by {
        forall i, j | 0 <= i < j < |s[1..]| ensures s[1..][i] != s[1..][j] {
          assert s[1..][i] == s[i + 1] && s[1..][j] == s[j + 1];
        }
      }
      NoDupMultiset(s[1..], x);
      forall k | 0 <= k < |s[1..]| ensures s[1..][k] != s[0] {
        assert s[1..][k] == s[k + 1];
      }
    }
  }

  /** On a well-formed tree every indexed file stats as a file, so `Promise.all` resolves. */
  lemma StatAllOfIndex(fs: Node, root: Path)
    requires WellFormed(fs) && ReadDir(fs, root).Some?
    ensures var files := FilesUnder(root, ReadDir(fs, root).value);
            && (forall i :: 0 <= i < |files| ==> Stat(fs, files[i]).Some? && Stat(fs, files[i]).value.File?)
            && StatAll(fs, files).Some?
            && PathsOf(StatAll(fs, files).value) == files
  {
    var es := ReadDir(fs, root).value;
    var files := FilesUnder(root, es);
    forall i | 0 <= i < |files|
      ensures Stat(fs, files[i]).Some? && Stat(fs, files[i]).value.File?
    {
      FilesUnderSound(root, es, files[i]);
      StatFileBelow(fs, root, files[i][|root|..]);
      assert root + files[i][|root|..] == files[i];
    }
  }

  /** On a well-formed tree the ranking is the sorted stats of the whole index. */
  lemma RankedStatsOfIndex(fs: Node, root: Path)
    requires WellFormed(fs) && ReadDir(fs, root).Some?
    ensures var files := FilesUnder(root, ReadDir(fs, root).value);
            && StatAll(fs, files).Some?
            && PathsOf(StatAll(fs, files).value) == files
            && RankedStats(fs, root) == Some(SortByRecency(StatAll(fs, files).value))
  {
    StatAllOfIndex(fs, root);
  }

  /** Each file below `root` occurs once among the ranked paths, and nothing else does. */
  lemma RankedStatsExactlyOnce(fs: Node, root: Path)
    requires WellFormed(fs) && ReadDir(fs, root).Some?
    ensures RankedStats(fs, root).Some?
    ensures var es := ReadDir(fs, root).value;
            var r := RankedStats(fs, root).value;
            forall p :: multiset(PathsOf(r))[p] == if IsPrefix(root, p) && FileIn(es, p[|root|..]) then 1 else 0
  {
    var es := ReadDir(fs, root).value;
    var files := FilesUnder(root, es);
    RankedStatsOfIndex(fs, root);
    var stats := StatAll(fs, files).value;
    var r := SortByRecency(stats);
    WellFormedAt(fs, root);
    FilesUnderNoDup(root, es);
    SortPaths(stats);
    assert multiset(PathsOf(r)) == multiset(files);
    forall p ensures multiset(PathsOf(r))[p] == if IsPrefix(root, p) && FileIn(es, p[|root|..]) then 1 else 0 {
      NoDupMultiset(files, p);
      FilesUnderMembership(root, es, p);
    }
  }

  /**
    On a well-formed tree whose first folder is a readable directory, the
    ranked stats carry the time `stat` reports for each file, newest first;
    files with equal times stay in traversal order.
   */
  lemma RankedStatsOrder(fs: Node, root: Path)
    requires WellFormed(fs) && ReadDir(fs, root).Some?
    ensures RankedStats(fs, root).Some?
    ensures var files := FilesUnder(root, ReadDir(fs, root).value);
            var r := RankedStats(fs, root).value;
            && SortedByRecency(r)
            && (forall i :: 0 <= i < |r| ==>
                  Stat(fs, r[i].path).Some? && Stat(fs, r[i].path).value.File? &&
                  r[i].mtimeMs == Stat(fs, r[i].path).value.mtimeMs)
            && (forall t :: WithMtime(r, t) == WithMtime(StatAll(fs, files).value, t))
  {
    var files := FilesUnder(root, ReadDir(fs, root).value);
    StatAllOfIndex(fs, root);
    RankedStatsOfIndex(fs, root);
    var stats := StatAll(fs, files).value;
    var r := SortByRecency(stats);
    forall i | 0 <= i < |r|
      ensures Stat(fs, r[i].path).Some? && Stat(fs, r[i].path).value.File?
      ensures r[i].mtimeMs == Stat(fs, r[i].path).value.mtimeMs
    {
      assert r[i] in multiset(stats);
      var k :| 0 <= k < |stats| && stats[k] == r[i];
    }
    forall t ensures WithMtime(r, t) == WithMtime(stats, t) {
      SortStable(stats, t);
    }
  }

  /**
    `getChildren()` with a workspace open: exactly the files below the first
    folder, each once, newest first by the time `stat` reports.
   */
  lemma GetChildrenSpec(fs: Node, folders: Option<seq<Path>>)
    requires WellFormed(fs) && folders.Some? && folders.value != [] && ReadDir(fs, folders.value[0]).Some?
    ensures GetChildren(fs, folders).Some?
    ensures var root := folders.value[0];
            var es := ReadDir(fs, root).value;
            var out := GetChildren(fs, folders).value;
            && (forall p :: multiset(out)[p] == if IsPrefix(root, p) && FileIn(es, p[|root|..]) then 1 else 0)
            && (forall i, j :: 0 <= i < j < |out| ==>
                  Stat(fs, out[i]).Some? && Stat(fs, out[j]).Some? &&
                  Stat(fs, out[i]).value.mtimeMs >= Stat(fs, out[j]).value.mtimeMs)
  {
    RankedStatsExactlyOnce(fs, folders.value[0]);
    RankedStatsOrder(fs, folders.value[0]);
  }

  // ---------------------------------------------------------------------------
  // getTreeItem
  // ---------------------------------------------------------------------------

  const MsPerDay := 86400000

  /** The local calendar day of a time (what `toDateString` compares), at a fixed offset from UTC. */
  function LocalDay(t: int, utcOffsetMs: int): int {
    (t + utcOffsetMs) / MsPerDay
  }

  /** `description` holds the modification time to show (" ↻ hh:mm:ss") when there is one. */
  datatype TreeItem = TreeItem(labelText: string, description: Option<int>)

  /**
    `getTreeItem(element)`: the label is the last segment of the path; the
    description is set only when `stat` succeeds and the file was modified on
    the same local day as `now`. A failing `stat` leaves the item without it.
   */
  function GetTreeItem(fs: Node, sep: char, p: Path, now: int, utcOffsetMs: int): (r: TreeItem)
    ensures r.description.Some? ==> Stat(fs, p).Some? && r.description.value == Stat(fs, p).value.mtimeMs
  {
    var labelText := LastSegment(FsPath(sep, p), sep);
    var description :=
      match Stat(fs, p)
      case None => None
      case Some(n) =>
        if LocalDay(n.mtimeMs, utcOffsetMs) == LocalDay(now, utcOffsetMs) then Some(n.mtimeMs) else None;
    TreeItem(labelText, description)
  }

  /** The label is the file name. */
  lemma TreeItemLabel(fs: Node, sep: char, p: Path, now: int, utcOffsetMs: int)
    requires p != [] ==> sep !in p[|p| - 1]
    ensures GetTreeItem(fs, sep, p, now, utcOffsetMs).labelText == Basename(p)
  {
    LabelOfFsPath(sep, p);
  }

  /** Two times on the same local day are less than a day apart. */
  lemma SameDayWithinADay(a: int, b: int, utcOffsetMs: int)
    requires LocalDay(a, utcOffsetMs) == LocalDay(b, utcOffsetMs)
    ensures -MsPerDay < a - b < MsPerDay
  {
    var x, y := a + utcOffsetMs, b + utcOffsetMs;
    assert x == MsPerDay * (x / MsPerDay) + x % MsPerDay;
    assert y == MsPerDay * (y / MsPerDay) + y % MsPerDay;
  }

  /**
    An item is described only with the file's own modification time, and only
    when that time is within a day of `now`; a file modified at `now` is
    always described.
   */
  lemma TreeItemDescription(fs: Node, sep: char, p: Path, now: int, utcOffsetMs: int)
    ensures GetTreeItem(fs, sep, p, now, utcOffsetMs).description.Some? <==>
            Stat(fs, p).Some? && LocalDay(Stat(fs, p).value.mtimeMs, utcOffsetMs) == LocalDay(now, utcOffsetMs)
    ensures var d := GetTreeItem(fs, sep, p, now, utcOffsetMs).description;
            d.Some? ==> Stat(fs, p).Some? && d.value == Stat(fs, p).value.mtimeMs &&
                        now - MsPerDay < d.value < now + MsPerDay
    ensures Stat(fs, p).Some? && Stat(fs, p).value.mtimeMs == now ==>
            GetTreeItem(fs, sep, p, now, utcOffsetMs).description == Some(now)
  {
    var d := GetTreeItem(fs, sep, p, now, utcOffsetMs).description;
    if d.Some? {
      SameDayWithinADay(d.value, now, utcOffsetMs);
    }
  }
}
