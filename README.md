# vs-ex-compress in Dafny

This project models the core of the VS Code extension `vs-ex-compress`
(src/extension.ts). It covers three pieces:

- **The "Recent Files" view** (`RecentFilesTreeDataProvider`).
  - It indexes every file below the first workspace folder (`getFilesRecursively`).
  - It stats each file (`getFileStat`, `Promise.all`) and lists the files newest first (`getChildren`).
  - It labels each item with the file name. When the file was modified on the current local day, the item also shows the time (`getTreeItem`).
- **Whole-tree compression** (`compressDirectory` and its inner `addFilesToArchive`).
  - It walks the first workspace folder depth-first in readdir order.
  - It adds every file whose name does not end in ".zip". Each file is named by its path relative to the folder.
  - It writes `<folder>/<basename(folder)>.zip`.
- **Selection compression** (`compressSelectedItems`).
  - It takes the selected items in order. A directory becomes `archive.directory(item, relative)` and a file becomes `archive.file(item, { name: relative })`.
  - There is no filter. The archive is `<folder>/selected-items.zip`.
  - The two registered commands refuse to run with no workspace open. The selection command also refuses an empty selection.

The filesystem is one in-memory tree of `File` and `Dir` nodes, each with a name and an `mtimeMs`.
- A path is the list of its segments below `/`.
- `path.join(dir, name)` is `dir + [name]`.
- `path.relative` and `path.basename` are defined over segment lists. `Paths.Basename` is the definition of `path.basename`. The extension never calls `path.resolve`; `Paths.Resolve` is the inverse that `RelativeRoundTrip` is stated against.
- A rejected `readdir` or `stat` promise is `None`. `FileSystem.Stat` and `FileSystem.ReadDir` are the definitions of `stat` and `readdir`: `readdir` succeeds exactly on directories and returns their entries.
- `workspaceFolders` is an option: `None` when it is undefined, otherwise the list of folders, which may be empty.
- The archive is a class. It holds the ordered log of records handed to `archiver` (`entries`) and whether `finalize()` has run.

Modules:
- `Paths`: path helpers and the tree-item label.
- `FileSystem`: the tree, `stat` and `readdir`.
- `RecentFiles`: the view.
- `Archiving`: both compress commands.

Notes on the code:
- The ranking has no tie-break: equal times keep traversal order through the stable sort.
- Only whole-tree mode skips ".zip" files.
- Selection mode does not reject items outside the workspace. Their names start with "..", as `SelectionOutsideRootEscapes` shows.
- Selection mode can archive its own `selected-items.zip`, as `SelectionMayArchiveItsOutput` shows.
- The selection command takes its items only from the view's selection, and the view lists only files. The directory branch of selection mode is therefore reached only when a listed path has become a directory after the view was filled, or when a listed path is a symbolic link to a directory (`readdir` reports the link as not a directory, but `stat` follows it).
- An empty `workspaceFolders` list is not guarded: `workspaceFolders[0].uri` throws, so `getChildren` and both commands reject.

## Model

| member | source | states |
|---|---|---|
| Paths.RelativeRoundTrip | src/extension.ts:98 | resolving `path.relative(from, to)` against `from` gives `to` back, for every plain path `to` |
| Paths.RelativeOfDescendant | src/extension.ts:98 | below `from`, `path.relative(from, to)` is exactly the remaining segments of `to` |
| Paths.RelativeEscapesIff | src/extension.ts:129 | the relative path starts with ".." if and only if the target is not below the origin |
| Paths.LastSegment | src/extension.ts:17 | `split(sep).pop() \|\| ''` is a suffix of the path with no separator in it, preceded by a separator whenever it is not the whole string |
| Paths.LabelOfFsPath | src/extension.ts:16-17 | the label computed from `fsPath` is the path's last segment, "" for the root |
| FileSystem.StatBelow | src/extension.ts:55-58 | `stat(path.join(dir, ...))` finds what the entries `readdir(dir)` returned lead to |
| FileSystem.ReadDirChild | src/extension.ts:57-58 | on a well-formed tree, `readdir(path.join(dir, entry.name))` of a directory entry returns exactly that entry's children |
| FileSystem.StatFileBelow | src/extension.ts:64 | on a well-formed tree, every file path found below a readable directory stats as a file with that name |
| RecentFiles.GetFilesRecursively | src/extension.ts:54-61 | the walk resolves if and only if `readdir(dir)` does, and every path it lists lies strictly below `dir` |
| RecentFiles.GetFilesRecursivelyMembership | src/extension.ts:54-61 | when `readdir(dir)` resolves, a path is listed if and only if it names a file below `dir` in the entries `readdir` returned |
| RecentFiles.FilesUnder | src/extension.ts:54-61 | every indexed path is `dir` extended by at least one segment |
| RecentFiles.FilesUnderAppend | src/extension.ts:56-60 | the index of consecutive runs of readdir entries is their indexes concatenated, in readdir order |
| RecentFiles.FilesUnderSound | src/extension.ts:54-61 | every indexed path is a file (never a directory) below `dir` |
| RecentFiles.HeadFilesSound | src/extension.ts:56-58 | every path the first readdir entry contributes leads through that entry to a file |
| RecentFiles.FilesUnderComplete | src/extension.ts:54-61 | every file below `dir` is indexed |
| RecentFiles.FilesUnderMembership | src/extension.ts:54-61 | a path is indexed if and only if it names a file below `dir` |
| RecentFiles.FilesUnderNoDup | src/extension.ts:54-61 | on a well-formed tree no file is indexed twice |
| RecentFiles.GetFileStat | src/extension.ts:63-66 | `getFileStat` resolves if and only if `stat` does, and reports the path it was asked for |
| RecentFiles.IndexedFileStat | src/extension.ts:48-49 | on a well-formed tree `getFileStat` resolves for every indexed path, with the mtime of the file entry the walk reached it through |
| RecentFiles.StatAll | src/extension.ts:63-66 | `Promise.all` of `getFileStat` resolves if and only if every stat succeeds, to each path paired with its own mtime, in order |
| RecentFiles.Insert | src/extension.ts:50 | inserting a stat adds exactly that element |
| RecentFiles.InsertSorted | src/extension.ts:50 | inserting into a newest-first list keeps it newest first |
| RecentFiles.SortByRecency | src/extension.ts:50 | sorting by `b.mtimeMs - a.mtimeMs` gives a permutation of the stats, newest first |
| RecentFiles.SortStable | src/extension.ts:50 | among stats with equal times the sorted order is the input order |
| RecentFiles.SortPaths | src/extension.ts:50 | the sorted paths are a permutation of the input paths |
| RecentFiles.StatAllOfIndex | src/extension.ts:48-49 | on a well-formed tree every indexed file stats as a file, so `Promise.all` resolves with the index's paths in order |
| RecentFiles.RankedStatsOfIndex | src/extension.ts:48-50 | on a well-formed tree the ranking is the sorted stats of the whole index |
| RecentFiles.RankedStatsExactlyOnce | src/extension.ts:47-50 | each file below the first folder appears exactly once in the ranking, and nothing else appears |
| RecentFiles.RankedStatsOrder | src/extension.ts:48-50 | the ranking carries each file's stat time, is newest first, and keeps traversal order among equal times |
| RecentFiles.GetChildren | src/extension.ts:43-51 | with `workspaceFolders` undefined the view is empty. With an empty folder list it rejects. Otherwise it resolves if and only if indexing and statting the first folder resolve |
| RecentFiles.GetChildrenSpec | src/extension.ts:43-52 | with a readable first folder the view lists exactly its files, each once, newest first by `stat` |
| RecentFiles.GetTreeItem | src/extension.ts:15-41 | a description is set only after a successful `stat`, and it holds that file's own mtime |
| RecentFiles.TreeItemLabel | src/extension.ts:16-17 | the item's label is the file name |
| RecentFiles.SameDayWithinADay | src/extension.ts:28-30 | two times on the same local day are less than a day apart |
| RecentFiles.TreeItemDescription | src/extension.ts:26-38 | the description is present if and only if `stat` succeeds and the mtime falls on the current local day. It shows the file's own mtime, within a day of now. A file modified now is always described |
| Archiving.ZipFilter | src/extension.ts:97 | the kept files are exactly the input files whose names do not end in ".zip" |
| Archiving.Archive.constructor | src/extension.ts:76-78 | a new archive has no records and is not finalized |
| Archiving.Archive.AddFile | src/extension.ts:98 | `archive.file` appends one record with the given source and name |
| Archiving.Archive.AddDirectory | src/extension.ts:132 | `archive.directory` appends a record for every file below the directory, named `dest` joined with its path inside it |
| Archiving.Archive.Finalize | src/extension.ts:104 | `finalize` adds no record and closes the archive |
| Archiving.WholeTreeAppend | src/extension.ts:93-100 | handling two runs of readdir entries adds their records one after the other |
| Archiving.WholeTreeOfDir | src/extension.ts:95-96 | a directory entry adds what the recursive walk of that directory adds |
| Archiving.WholeTreeOfFile | src/extension.ts:97-98 | a file entry adds one record named relative to the root, or nothing when its name ends in ".zip" |
| Archiving.AddFilesToArchive | src/extension.ts:91-101 | the walk appends exactly the whole-tree records of `dir`, in traversal order, to what the archive already held |
| Archiving.AddEntryToArchive | src/extension.ts:94-99 | one readdir entry appends exactly its own whole-tree records |
| Archiving.CompressDirectory | src/extension.ts:69-105 | the output is `<root>/<basename(root)>.zip`. A readable root gives a finalized archive of exactly the whole-tree records. A rejected readdir leaves the archive empty and never finalized |
| Archiving.WholeTreeMembership | src/extension.ts:91-101 | a record is in the whole-tree archive if and only if its source is a file below the root whose name does not end in ".zip", and its name is the source's path relative to the root |
| Archiving.WholeTreeExcludesOutputs | src/extension.ts:91-101 | whole-tree mode never adds a ".zip" file, so never `<basename>.zip` nor `selected-items.zip` |
| Archiving.ZipFilterNoDup | src/extension.ts:97 | filtering keeps distinct paths distinct |
| Archiving.WholeTreeNoDup | src/extension.ts:91-101 | on a well-formed tree no file is added twice |
| Archiving.FirstMissing | src/extension.ts:130 | the index of the first selected item whose `stat` rejects: all earlier items stat, that one does not |
| Archiving.SelectedStep | src/extension.ts:128-136 | one more selected item appends its records after those of the earlier items |
| Archiving.AddSelectedItem | src/extension.ts:129-135 | a selected directory appends its `archive.directory` records and a selected file appends one record, both named relative to the root |
| Archiving.AddSelectedItems | src/extension.ts:128-136 | the loop appends the records of the items before the first rejected `stat`, in selection order, and stops there |
| Archiving.CompressSelectedItems | src/extension.ts:107-139 | the output is `<root>/selected-items.zip`. The archive holds the records of the items before the first rejected `stat`, in selection order, and is finalized if and only if no `stat` rejects |
| Archiving.SelectedFilesOnePerItem | src/extension.ts:133-135 | selected files give exactly one record each, in selection order, named relative to the root |
| Archiving.SelectedDirectoryEntries | src/extension.ts:131-132 | a selected directory below the root adds every file below it, unfiltered, each named by its path relative to the root |
| Archiving.ItemEntriesRelative | src/extension.ts:129-135 | every record of one item below the root is named by its source's path relative to the root |
| Archiving.SelectedEntriesRelative | src/extension.ts:128-136 | when every selected item lies below the root, every record's name is its source's path relative to the root |
| Archiving.SelectionMayArchiveItsOutput | src/extension.ts:109-136 | selecting `selected-items.zip` adds that very file: selection mode applies no ".zip" filter |
| Archiving.SelectionOutsideRootEscapes | src/extension.ts:129-134 | an item outside the root is not rejected, and its record name starts with ".." |
| Archiving.CompressDirectoryCommand | src/extension.ts:154-161 | with `workspaceFolders` undefined the command reports "No workspace is open." and resolves with no archive. An empty folder list rejects with no archive. Otherwise it resolves if and only if `readdir` of the first folder does: then the archive is finalized with the whole-tree records, else it stays empty and unfinalized |
| Archiving.CompressSelectedItemsCommand | src/extension.ts:164-179 | with `workspaceFolders` undefined or an empty selection the command reports the matching error and resolves with no archive. An empty folder list with a selection rejects with no archive. Otherwise it resolves if and only if every selected item stats; the archive holds the records of the items before the first rejected `stat` and is finalized if and only if none rejects |

## Left out

- VS Code wiring: the tree view, event emitter, `refresh`, the `vscode.open` command on items, the subscriptions and `deactivate` are not part of this model.
- The write stream, `archive.pipe`, zlib level 9 and `archive.pointer()` are not modelled, and neither are the extension's "close" and "error" handlers or the notifications they show. The archive is modelled only as its list of records.
- AddDirectory: `archiver`'s own directory walk may also emit records for directories, and its order is its own. The model adds the files in depth-first readdir order. `archive.directory` is not awaited and `archiver` walks the directory asynchronously, so the source does not fix whether a directory's records come before those of later items, and a later rejected `stat` does not stop a walk already started; `AddSelectedItems` and `CompressSelectedItems` add each directory's records in full, in selection order, before handling the next item.
- Concurrency: the `Promise.all` calls in `getFilesRecursively` and `getChildren` are modelled by their results in order. The interleaving of I/O is not modelled, and neither are files that change during a walk.
- GetFilesRecursively: a `readdir` rejection in a subdirectory is not modelled. The walk goes over the tree that the first `readdir` returned, so only the root `readdir` can fail. On a well-formed tree, re-reading a subdirectory returns the same entries (`ReadDirChild`). The same holds for `addFilesToArchive`.
- Symbolic links and other non-directory entries are files (`!entry.isDirectory()`), and `Stat` resolves for every file. Link cycles do not arise in a tree. In the source `stat` follows links, so two cases differ: a listed link to a directory stats as a directory and selection mode calls `archive.directory` on it, where the model adds one file record; and a dangling link makes `stat` reject, so `getChildren` rejects and selection mode stops there, where the model's `Stat` resolves.
- TreeItemDescription: "same day" is compared at a fixed offset from UTC. Daylight-saving changes and the locale's time format (`toLocaleTimeString`) are not modelled. The description holds the mtime rather than its formatted text.
- `mtimeMs` is an integer here, not a fractional double.
- Directory names containing the path separator are excluded from the label lemma (`LabelOfFsPath`), as a filesystem would exclude them.
