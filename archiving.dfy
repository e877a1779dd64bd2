/**
  The two compress commands of src/extension.ts. `compressDirectory` walks the
  first workspace folder and adds every file whose name does not end in
  ".zip", named by its path relative to the folder; `compressSelectedItems`
  adds each selected file, or each selected directory recursively, under its
  path relative to the folder. The `archiver` instance is modelled as the
  ordered log of the records handed to it.
 */
module Archiving {
  import opened Paths
  import opened FileSystem
  import opened RecentFiles

  /** One file record: the file read from `source`, stored under `name`. */
  datatype Entry = Entry(source: Path, name: Path)

  /** `s.endsWith(suffix)` */
  predicate EndsWith(s: string, suffix: string) {
    |suffix| <= |s| && s[|s| - |suffix|..] == suffix
  }

  /** Whole-tree mode leaves out files whose name ends in ".zip". */
  predicate IsZip(name: string) {
    EndsWith(name, ".zip")
  }

  /** The files whole-tree mode keeps, in order. */
  function ZipFilter(ps: seq<Path>): (r: seq<Path>)
    ensures forall p :: p in r <==> p in ps && !IsZip(Basename(p))
  {
    if ps == [] then []
    else
      assert forall p :: p in ps <==> p == ps[0] || p in ps[1..];
      (if IsZip(Basename(ps[0])) then [] else [ps[0]]) + ZipFilter(ps[1..])
  }

  /** One record per path, named `prefix` joined with the path relative to `base`. */
  function EntriesFor(base: Path, prefix: Path, ps: seq<Path>): (r: seq<Entry>)
    ensures |r| == |ps|
  {
    if ps == [] then []
    else [Entry(ps[0], prefix + Relative(base, ps[0]))] + EntriesFor(base, prefix, ps[1..])
  }

  /** The record for the `i`-th path is that path under its name. */
  lemma {:induction false} EntriesForIndex(base: Path, prefix: Path, ps: seq<Path>)
    ensures forall i :: 0 <= i < |ps| ==>
              EntriesFor(base, prefix, ps)[i] == Entry(ps[i], prefix + Relative(base, ps[i]))
  {
    if ps != [] {
      EntriesForIndex(base, prefix, ps[1..]);
      assert forall i :: 1 <= i < |ps| ==> ps[1..][i - 1] == ps[i];
    }
  }

  /**
    What `addFilesToArchive(dir)` adds when `readdir(dir)` returns `es`: the
    files below `dir` whose names do not end in ".zip", in traversal order,
    each named by its path relative to `root`.
   */
  function WholeTreeEntries(root: Path, dir: Path, es: seq<Node>): seq<Entry> {
    EntriesFor(root, [], ZipFilter(FilesUnder(dir, es)))
  }

  /**
    What `archive.directory(source, dest)` adds for a directory whose entries
    are `cs`: every file below it, unfiltered, named `dest` joined with its
    path inside the directory.
   */
  function DirectoryEntries(source: Path, dest: Path, cs: seq<Node>): seq<Entry> {
    EntriesFor(source, dest, FilesUnder(source, cs))
  }

  /** The archive file `compressDirectory` writes: `<root>/<basename(root)>.zip`. */
  function WholeTreeOutputPath(root: Path): Path {
    root + [Basename(root) + ".zip"]
  }

  /** The archive file `compressSelectedItems` writes: `<root>/selected-items.zip`. */
  function SelectionOutputPath(root: Path): Path {
    root + ["selected-items.zip"]
  }

  /**
    An `archiver('zip')` instance as the extension uses it: records are
    appended one at a time until `finalize()`.
   */
  class Archive {
    var entries: seq<Entry>
    var finalized: bool

    constructor ()
      ensures entries == [] && !finalized
    {
      entries := [];
      finalized := false;
    }

    /** `archive.file(source, { name })` */
    method AddFile(source: Path, name: Path)
      requires !finalized
      modifies this
      ensures !finalized
      ensures entries == old(entries) + [Entry(source, name)]
    {
      entries := entries + [Entry(source, name)];
    }

    /** `archive.directory(source, dest)` for a directory whose entries are `cs` */
    method AddDirectory(source: Path, dest: Path, cs: seq<Node>)
      requires !finalized
      modifies this
      ensures !finalized
      ensures entries == old(entries) + DirectoryEntries(source, dest, cs)
    {
      entries := entries + DirectoryEntries(source, dest, cs);
    }

    /** `archive.finalize()`: no record is added after it. */
    method Finalize()
      requires !finalized
      modifies this
      ensures finalized
      ensures entries == old(entries)
    {
      finalized := true;
    }
  }

  // ---------------------------------------------------------------------------
  // Whole-tree mode: compressDirectory / addFilesToArchive
  // ---------------------------------------------------------------------------

  lemma {:induction false} ZipFilterAppend(a: seq<Path>, b: seq<Path>)
    ensures ZipFilter(a + b) == ZipFilter(a) + ZipFilter(b)
  {
    if a == [] {
      assert a + b == b;
    } else {
      assert (a + b)[0] == a[0];
      assert (a + b)[1..] == a[1..] + b;
      ZipFilterAppend(a[1..], b);
    }
  }

  lemma {:induction false} EntriesForAppend(base: Path, prefix: Path, a: seq<Path>, b: seq<Path>)
    ensures EntriesFor(base, prefix, a + b) == EntriesFor(base, prefix, a) + EntriesFor(base, prefix, b)
  {
    if a == [] {
      assert a + b == b;
    } else {
      assert (a + b)[0] == a[0];
      assert (a + b)[1..] == a[1..] + b;
      EntriesForAppend(base, prefix, a[1..], b);
    }
  }

  lemma FilesUnderSingle(dir: Path, e: Node)
    ensures FilesUnder(dir, [e]) == EntryFiles(dir, e)
  {
    assert [e][1..] == [];
    assert FilesUnder(dir, [e]) == EntryFiles(dir, e) + FilesUnder(dir, []);
  }

  /** Handling two runs of readdir entries one after the other. */
  lemma WholeTreeAppend(root: Path, dir: Path, a: seq<Node>, b: seq<Node>)
    ensures WholeTreeEntries(root, dir, a + b) == WholeTreeEntries(root, dir, a) + WholeTreeEntries(root, dir, b)
  {
    FilesUnderAppend(dir, a, b);
    ZipFilterAppend(FilesUnder(dir, a), FilesUnder(dir, b));
    EntriesForAppend(root, [], ZipFilter(FilesUnder(dir, a)), ZipFilter(FilesUnder(dir, b)));
  }

  lemma AppendAssoc<T>(a: seq<T>, b: seq<T>, c: seq<T>)
    ensures (a + b) + c == a + (b + c)
  {
  }

  /** One more readdir entry handled adds that entry's records after the earlier ones. */
  lemma WholeTreeStep(root: Path, dir: Path, es: seq<Node>, i: nat)
    requires i < |es|
    ensures WholeTreeEntries(root, dir, es[..i + 1]) == WholeTreeEntries(root, dir, es[..i]) + WholeTreeEntries(root, dir, [es[i]])
  {
    assert es[..i + 1] == es[..i] + [es[i]];
    WholeTreeAppend(root, dir, es[..i], [es[i]]);
  }

  /** A directory entry contributes whatever its own walk contributes. */
  lemma WholeTreeOfDir(root: Path, dir: Path, e: Node)
    requires e.Dir?
    ensures WholeTreeEntries(root, dir, [e]) == WholeTreeEntries(root, dir + [e.name], e.children)
  {
    FilesUnderSingle(dir, e);
  }

  /** A file entry contributes one record, unless its name ends in ".zip". */
  lemma WholeTreeOfFile(root: Path, dir: Path, e: Node)
    requires e.File?
    ensures WholeTreeEntries(root, dir, [e]) ==
            if IsZip(e.name) then [] else [Entry(dir + [e.name], Relative(root, dir + [e.name]))]
  {
    var p := dir + [e.name];
    FilesUnderSingle(dir, e);
    var ps: seq<Path> := [p];
    assert ps[1..] == [];
    assert Basename(p) == e.name;
    assert ZipFilter(ps) == (if IsZip(e.name) then [] else [p]) + [];
    assert [] + Relative(root, p) == Relative(root, p);
  }

  /**
    `addFilesToArchive(dir)`: for each readdir entry in order, descend into a
    directory, or add a file whose name does not end in ".zip" under its path
    relative to `root`. The records added are exactly WholeTreeEntries.
   */
  method AddFilesToArchive(archive: Archive, root: Path, dir: Path, es: seq<Node>)
    requires !archive.finalized
    modifies archive
    ensures !archive.finalized
    ensures archive.entries == old(archive.entries) + WholeTreeEntries(root, dir, es)
    decreases es
  {
    ghost var start := archive.entries;
    var i := 0;
    assert es[..0] == [];
    assert WholeTreeEntries(root, dir, []) == [];
    while i < |es|
      invariant 0 <= i <= |es|
      invariant !archive.finalized
      invariant archive.entries == start + WholeTreeEntries(root, dir, es[..i])
    {
      WholeTreeStep(root, dir, es, i);
      AppendAssoc(start, WholeTreeEntries(root, dir, es[..i]), WholeTreeEntries(root, dir, [es[i]]));
      AddEntryToArchive(archive, root, dir, es[i]);
      i := i + 1;
    }
    assert es[..|es|] == es;
  }

  /** The body of the loop in `addFilesToArchive` for one readdir entry. */
  method AddEntryToArchive(archive: Archive, root: Path, dir: Path, entry: Node)
    requires !archive.finalized
    modifies archive
    ensures !archive.finalized
    ensures archive.entries == old(archive.entries) + WholeTreeEntries(root, dir, [entry])
    decreases entry
  {
    var fullPath := dir + [entry.name];
    if entry.Dir? {
      WholeTreeOfDir(root, dir, entry);
      AddFilesToArchive(archive, root, fullPath, entry.children);
    } else {
      WholeTreeOfFile(root, dir, entry);
      if !IsZip(entry.name) {
        archive.AddFile(fullPath, Relative(root, fullPath));
      }
    }
  }

  /**
    `compressDirectory(workspaceRoot)`: open the archive, add the whole tree
    and finalize. When `readdir(workspaceRoot)` rejects, nothing is added and
    the archive is never finalized (`ok` is false).
   */
  method CompressDirectory(fs: Node, workspaceRoot: Path) returns (outputPath: Path, archive: Archive, ok: bool)
    ensures outputPath == WholeTreeOutputPath(workspaceRoot)
    ensures fresh(archive)
    ensures ok <==> ReadDir(fs, workspaceRoot).Some?
    ensures ok ==> archive.finalized &&
                   archive.entries == WholeTreeEntries(workspaceRoot, workspaceRoot, ReadDir(fs, workspaceRoot).value)
    ensures !ok ==> !archive.finalized && archive.entries == []
  {
    var directoryName := Basename(workspaceRoot);
    outputPath := workspaceRoot + [directoryName + ".zip"];
    archive := new Archive();
    match ReadDir(fs, workspaceRoot) {
      case None =>
        ok := false;
      case Some(es) =>
        AddFilesToArchive(archive, workspaceRoot, workspaceRoot, es);
        archive.Finalize();
        ok := true;
    }
  }

  /**
    Whole-tree mode adds exactly the files below `root` whose names do not
    end in ".zip" (directories are descended, never added), each under its
    path relative to `root`.
   */
  lemma WholeTreeMembership(root: Path, es: seq<Node>, e: Entry)
    ensures e in WholeTreeEntries(root, root, es) <==>
            IsPrefix(root, e.source) && FileIn(es, e.source[|root|..]) &&
            !IsZip(Basename(e.source)) && e.name == e.source[|root|..]
  {
    var kept := ZipFilter(FilesUnder(root, es));
    var r := WholeTreeEntries(root, root, es);
    EntriesForIndex(root, [], kept);
    FilesUnderMembership(root, es, e.source);
    if e in r {
      var i :| 0 <= i < |r| && r[i] == e;
      assert kept[i] in kept;
      RelativeOfDescendant(root, e.source);
    }
    if IsPrefix(root, e.source) && FileIn(es, e.source[|root|..]) &&
       !IsZip(Basename(e.source)) && e.name == e.source[|root|..] {
      assert e.source in kept;
      var i :| 0 <= i < |kept| && kept[i] == e.source;
      RelativeOfDescendant(root, e.source);
      assert r[i] == e;
    }
  }

  /** Whole-tree mode never adds a ".zip" file, so in particular not either archive the extension writes. */
  lemma WholeTreeExcludesOutputs(root: Path, es: seq<Node>)
    ensures forall e :: e in WholeTreeEntries(root, root, es) ==> !IsZip(Basename(e.source))
    ensures forall e :: e in WholeTreeEntries(root, root, es) ==>
              e.source != WholeTreeOutputPath(root) && e.source != SelectionOutputPath(root)
  {
    forall e | e in WholeTreeEntries(root, root, es) ensures !IsZip(Basename(e.source)) {
      WholeTreeMembership(root, es, e);
    }
    var out := Basename(root) + ".zip";
    assert out[|out| - 4..] == ".zip";
    assert Basename(WholeTreeOutputPath(root)) == out;
    assert IsZip(Basename(SelectionOutputPath(root))) by {
      assert Basename(SelectionOutputPath(root)) == "selected-items.zip";
    }
  }

  lemma {:induction false} ZipFilterNoDup(ps: seq<Path>)
    requires NoDup(ps)
    ensures NoDup(ZipFilter(ps))
  {
    if ps != [] {
      assert NoDup(ps[1..]) by {
        forall i, j | 0 <= i < j < |ps[1..]| ensures ps[1..][i] != ps[1..][j] {
          assert ps[1..][i] == ps[i + 1] && ps[1..][j] == ps[j + 1];
        }
      }
      ZipFilterNoDup(ps[1..]);
      forall k | 0 <= k < |ps[1..]| ensures ps[1..][k] != ps[0] {
        assert ps[1..][k] == ps[k + 1];
      }
      NoDupAppend(if IsZip(Basename(ps[0])) then [] else [ps[0]], ZipFilter(ps[1..]));
    }
  }

  /** On a well-formed tree, whole-tree mode adds each file at most once. */
  lemma WholeTreeNoDup(root: Path, es: seq<Node>)
    requires WellFormedEntries(es)
    ensures NoDup(WholeTreeEntries(root, root, es))
  {
    FilesUnderNoDup(root, es);
    var kept := ZipFilter(FilesUnder(root, es));
    ZipFilterNoDup(FilesUnder(root, es));
    var r := EntriesFor(root, [], kept);
    EntriesForIndex(root, [], kept);
    forall i, j | 0 <= i < j < |r| ensures r[i] != r[j] {
      assert r[i].source == kept[i] && r[j].source == kept[j];
    }
  }

  // ---------------------------------------------------------------------------
  // Selection mode: compressSelectedItems
  // ---------------------------------------------------------------------------

  /**
    What one selected item adds once `stat` has told file from directory;
    an item whose `stat` rejects adds nothing (the command stops there).
   */
  function ItemEntries(fs: Node, root: Path, item: Path): seq<Entry> {
    match Stat(fs, item)
    case None => []
    case Some(Dir(_, _, cs)) => DirectoryEntries(item, Relative(root, item), cs)
    case Some(File(_, _)) => [Entry(item, Relative(root, item))]
  }

  /** Index of the first item whose `stat` rejects, `|items|` when none does. */
  function FirstMissing(fs: Node, items: seq<Path>): (k: nat)
    ensures k <= |items|
    ensures forall j :: 0 <= j < k ==> Stat(fs, items[j]).Some?
    ensures k < |items| ==> Stat(fs, items[k]).None?
  {
    if items == [] || Stat(fs, items[0]).None? then 0
    else 1 + FirstMissing(fs, items[1..])
  }

  /** Scanning up to the first rejection: item `i` rejects exactly when `i` is that index. */
  lemma FirstMissingAt(fs: Node, items: seq<Path>, i: nat)
    requires i <= FirstMissing(fs, items) && i < |items|
    ensures Stat(fs, items[i]).None? <==> FirstMissing(fs, items) == i
    ensures Stat(fs, items[i]).Some? ==> i + 1 <= FirstMissing(fs, items)
  {
  }

  /** The records for `items`, in selection order. */
  function SelectedEntries(fs: Node, root: Path, items: seq<Path>): seq<Entry> {
    if items == [] then []
    else SelectedEntries(fs, root, items[..|items| - 1]) + ItemEntries(fs, root, items[|items| - 1])
  }

  /** One more selected item handled adds its records after the earlier ones. */
  lemma SelectedStep(fs: Node, root: Path, items: seq<Path>, i: nat)
    requires i < |items|
    ensures SelectedEntries(fs, root, items[..i + 1]) == SelectedEntries(fs, root, items[..i]) + ItemEntries(fs, root, items[i])
  {
    assert items[..i + 1][..i] == items[..i];
  }

  /**
    `compressSelectedItems(selectedItems, workspaceRoot)`: one `archive.file`
    or `archive.directory` call per item, in selection order, with no ".zip"
    or other filter. A rejected `stat` ends the command before `finalize()`,
    with the records of the earlier items already added.
   */
  method CompressSelectedItems(fs: Node, selectedItems: seq<Path>, workspaceRoot: Path)
    returns (outputPath: Path, archive: Archive, ok: bool)
    ensures outputPath == SelectionOutputPath(workspaceRoot)
    ensures fresh(archive)
    ensures ok <==> FirstMissing(fs, selectedItems) == |selectedItems|
    ensures archive.finalized == ok
    ensures archive.entries == SelectedEntries(fs, workspaceRoot, selectedItems[..FirstMissing(fs, selectedItems)])
  {
    outputPath := workspaceRoot + ["selected-items.zip"];
    archive := new Archive();
    ok := AddSelectedItems(archive, fs, selectedItems, workspaceRoot);
    if ok {
      archive.Finalize();
    }
  }

  /**
    The loop of `compressSelectedItems` over a fresh archive: the records of
    the items before the first rejected `stat`; `ok` is false when one rejects.
   */
  method AddSelectedItems(archive: Archive, fs: Node, selectedItems: seq<Path>, workspaceRoot: Path) returns (ok: bool)
    requires !archive.finalized && archive.entries == []
    modifies archive
    ensures !archive.finalized
    ensures ok <==> FirstMissing(fs, selectedItems) == |selectedItems|
    ensures archive.entries == SelectedEntries(fs, workspaceRoot, selectedItems[..FirstMissing(fs, selectedItems)])
  {
    var i := 0;
    ok := true;
    while i < |selectedItems|
      invariant 0 <= i <= FirstMissing(fs, selectedItems)
      invariant ok && !archive.finalized
      invariant archive.entries == SelectedEntries(fs, workspaceRoot, selectedItems[..i])
    {
      var item := selectedItems[i];
      var stat := Stat(fs, item);
      FirstMissingAt(fs, selectedItems, i);
      if stat.None? {
        return false;
      }
      SelectedStep(fs, workspaceRoot, selectedItems, i);
      AddSelectedItem(archive, workspaceRoot, item, stat.value);
      i := i + 1;
    }
  }

  /** The body of the loop in `compressSelectedItems` once `stat(item)` has resolved to `n`. */
  method AddSelectedItem(archive: Archive, workspaceRoot: Path, item: Path, n: Node)
    requires !archive.finalized
    modifies archive
    ensures !archive.finalized
    ensures archive.entries == old(archive.entries) +
            match n
            case Dir(_, _, cs) => DirectoryEntries(item, Relative(workspaceRoot, item), cs)
            case File(_, _) => [Entry(item, Relative(workspaceRoot, item))]
  {
    var relativePath := Relative(workspaceRoot, item);
    if n.Dir? {
      archive.AddDirectory(item, relativePath, n.children);
    } else {
      archive.AddFile(item, relativePath);
    }
  }

  /** A selection of files gives one record per item, in selection order, named relative to the root. */
  lemma {:induction false} SelectedFilesOnePerItem(fs: Node, root: Path, items: seq<Path>)
    requires forall j :: 0 <= j < |items| ==> Stat(fs, items[j]).Some? && Stat(fs, items[j]).value.File?
    ensures SelectedEntries(fs, root, items) == EntriesFor(root, [], items)
  {
    if items != [] {
      var init, last := items[..|items| - 1], items[|items| - 1];
      assert forall j :: 0 <= j < |init| ==> init[j] == items[j];
      assert SelectedEntries(fs, root, items) == SelectedEntries(fs, root, init) + ItemEntries(fs, root, last);
      SelectedFilesOnePerItem(fs, root, init);
      SingleFileEntries(fs, root, last);
      EntriesForAppend(root, [], init, [last]);
      assert init + [last] == items;
    }
  }

  lemma SingleFileEntries(fs: Node, root: Path, item: Path)
    requires Stat(fs, item).Some? && Stat(fs, item).value.File?
    ensures ItemEntries(fs, root, item) == EntriesFor(root, [], [item])
  {
    assert [] + Relative(root, item) == Relative(root, item);
  }

  /** Relative paths compose along a chain of ancestors. */
  lemma RelativeThrough(root: Path, item: Path, p: Path)
    requires IsPrefix(root, item) && IsPrefix(item, p)
    ensures IsPrefix(root, p)
    ensures Relative(root, item) + Relative(item, p) == Relative(root, p)
  {
    PrefixThrough(root, item, p);
    RelativeOfDescendant(root, item);
    RelativeOfDescendant(item, p);
    RelativeOfDescendant(root, p);
  }

  /**
    A selected directory below the root adds every file below it, unfiltered,
    each named by its path relative to the root, as whole-tree mode would name it.
   */
  lemma SelectedDirectoryEntries(root: Path, item: Path, cs: seq<Node>)
    requires IsPrefix(root, item)
    ensures DirectoryEntries(item, Relative(root, item), cs) == EntriesFor(root, [], FilesUnder(item, cs))
  {
    var ps := FilesUnder(item, cs);
    var l, r := DirectoryEntries(item, Relative(root, item), cs), EntriesFor(root, [], ps);
    EntriesForIndex(item, Relative(root, item), ps);
    EntriesForIndex(root, [], ps);
    forall i | 0 <= i < |ps| ensures l[i] == r[i] {
      var p := ps[i];
      assert p in ps;
      assert l[i] == Entry(p, Relative(root, item) + Relative(item, p));
      assert r[i] == Entry(p, [] + Relative(root, p));
      RelativeThrough(root, item, p);
      assert [] + Relative(root, p) == Relative(root, p);
    }
  }

  /** Every record of one item below the root is named by its source's path relative to the root. */
  lemma ItemEntriesRelative(fs: Node, root: Path, item: Path)
    requires IsPrefix(root, item)
    ensures forall e :: e in ItemEntries(fs, root, item) ==>
              IsPrefix(root, e.source) && e.name == e.source[|root|..]
  {
    match Stat(fs, item)
    case None =>
    case Some(File(_, _)) =>
      RelativeOfDescendant(root, item);
    case Some(Dir(_, _, cs)) =>
      SelectedDirectoryEntries(root, item, cs);
      var ps := FilesUnder(item, cs);
      EntriesForIndex(root, [], ps);
      forall e | e in EntriesFor(root, [], ps) ensures IsPrefix(root, e.source) && e.name == e.source[|root|..] {
        var i :| 0 <= i < |ps| && EntriesFor(root, [], ps)[i] == e;
        assert ps[i] in ps;
        RelativeThrough(root, item, ps[i]);
        RelativeOfDescendant(root, ps[i]);
      }
  }

  /**
    With every item below the root, every record of the selection is stored
    under its source's path relative to the root, so no name leaves the
    archive root.
   */
  lemma {:induction false} SelectedEntriesRelative(fs: Node, root: Path, items: seq<Path>)
    requires forall j :: 0 <= j < |items| ==> IsPrefix(root, items[j])
    ensures forall e :: e in SelectedEntries(fs, root, items) ==>
              IsPrefix(root, e.source) && e.name == e.source[|root|..]
  {
    if items != [] {
      var init, last := items[..|items| - 1], items[|items| - 1];
      assert forall j :: 0 <= j < |init| ==> init[j] == items[j];
      SelectedEntriesRelative(fs, root, init);
      ItemEntriesRelative(fs, root, last);
    }
  }

  /**
    Selection mode applies no ".zip" filter: selecting the archive it writes
    (listed in the recent-files view once a previous run has created it)
    adds that very file to the new archive.
   */
  lemma SelectionMayArchiveItsOutput(fs: Node, root: Path)
    requires Stat(fs, SelectionOutputPath(root)).Some? && Stat(fs, SelectionOutputPath(root)).value.File?
    ensures var out := SelectionOutputPath(root);
            FirstMissing(fs, [out]) == 1 &&
            SelectedEntries(fs, root, [out]) == [Entry(out, ["selected-items.zip"])]
  {
    var out := SelectionOutputPath(root);
    var single: seq<Path> := [out];
    assert single[..0] == [];
    RelativeOfDescendant(root, out);
    assert out[|root|..] == ["selected-items.zip"];
  }

  /**
    The source does not reject an item outside the root: its record name
    climbs out of the archive root with "..".
   */
  lemma SelectionOutsideRootEscapes(fs: Node, root: Path, item: Path)
    requires Normal(item) && !IsPrefix(root, item)
    requires Stat(fs, item).Some? && Stat(fs, item).value.File?
    ensures var name := SelectedEntries(fs, root, [item])[0].name; |name| > 0 && name[0] == ".."
  {
    var single: seq<Path> := [item];
    assert single[..0] == [];
    RelativeEscapesIff(root, item);
  }

  // ---------------------------------------------------------------------------
  // The two commands registered in activate()
  // ---------------------------------------------------------------------------

  const NoWorkspaceMessage := "No workspace is open."
  const NothingSelectedMessage := "No files or folders selected for compression."

  /**
    `vs-ex-compress.compressDirectory`: with `workspaceFolders` undefined
    (None) it reports the error and resolves; otherwise it compresses the
    first folder. An empty folder list makes `workspaceFolders[0].uri` throw.
    `ok` is false when the handler's promise rejects.
   */
  method CompressDirectoryCommand(fs: Node, workspaceFolders: Option<seq<Path>>)
    returns (error: Option<string>, archive: Archive?, ok: bool)
    ensures workspaceFolders.None? ==> error == Some(NoWorkspaceMessage) && archive == null && ok
    ensures workspaceFolders == Some([]) ==> error == None && archive == null && !ok
    ensures workspaceFolders.Some? && workspaceFolders.value != [] ==>
              var root := workspaceFolders.value[0];
              && error == None && archive != null && fresh(archive)
              && (ok <==> ReadDir(fs, root).Some?)
              && archive.finalized == ok
              && (ok ==> archive.entries == WholeTreeEntries(root, root, ReadDir(fs, root).value))
              && (!ok ==> archive.entries == [])
  {
    if workspaceFolders.None? {
      return Some(NoWorkspaceMessage), null, true;
    }
    if workspaceFolders.value == [] {
      return None, null, false;
    }
    var workspaceRoot := workspaceFolders.value[0];
    var _, a, compressed := CompressDirectory(fs, workspaceRoot);
    return None, a, compressed;
  }

  /**
    `vs-ex-compress.compressSelectedItems`: needs `workspaceFolders` defined
    and a non-empty selection, then compresses the selection against the
    first folder. An empty folder list makes `workspaceFolders[0].uri` throw.
    `ok` is false when the handler's promise rejects.
   */
  method CompressSelectedItemsCommand(fs: Node, workspaceFolders: Option<seq<Path>>, selection: seq<Path>)
    returns (error: Option<string>, archive: Archive?, ok: bool)
    ensures workspaceFolders.None? ==> error == Some(NoWorkspaceMessage) && archive == null && ok
    ensures workspaceFolders.Some? && selection == [] ==> error == Some(NothingSelectedMessage) && archive == null && ok
    ensures workspaceFolders == Some([]) && selection != [] ==> error == None && archive == null && !ok
    ensures workspaceFolders.Some? && workspaceFolders.value != [] && selection != [] ==>
              && error == None && archive != null && fresh(archive)
              && (ok <==> FirstMissing(fs, selection) == |selection|)
              && archive.finalized == ok
              && archive.entries == SelectedEntries(fs, workspaceFolders.value[0], selection[..FirstMissing(fs, selection)])
  {
    if workspaceFolders.None? {
      return Some(NoWorkspaceMessage), null, true;
    }
    if |selection| == 0 {
      return Some(NothingSelectedMessage), null, true;
    }
    if workspaceFolders.value == [] {
      return None, null, false;
    }
    var workspaceRoot := workspaceFolders.value[0];
    var _, a, compressed := CompressSelectedItems(fs, selection, workspaceRoot);
    return None, a, compressed;
  }
}
