/**
  The filesystem the extension reads through `fs.promises.readdir` and
  `fs.promises.stat`, as one in-memory tree. Every entry carries its
  modification time in milliseconds (`stat.mtimeMs`); an entry that is not a
  directory (`!entry.isDirectory()`) is a `File`.
 */
module FileSystem {
  import opened Paths

  datatype Option<T> = None | Some(value: T)

  datatype Node =
    | File(name: string, mtimeMs: int)
    | Dir(name: string, mtimeMs: int, children: seq<Node>)

  /** Index of the first child called `name`, or `|cs|` when there is none. */
  function FindChild(cs: seq<Node>, name: string): (i: nat)
    ensures i <= |cs|
    ensures i < |cs| ==> cs[i].name == name
    ensures forall j :: 0 <= j < i ==> cs[j].name != name
  {
    if cs == [] then 0
    else if cs[0].name == name then 0
    else 1 + FindChild(cs[1..], name)
  }

  /** The entry at `rel` (non-empty) below a directory whose entries are `es`. */
  function LookupIn(es: seq<Node>, rel: Path): Option<Node>
    decreases es
  {
    if rel == [] then None
    else
      var i := FindChild(es, rel[0]);
      if i == |es| then None
      else if |rel| == 1 then Some(es[i])
      else if es[i].Dir? then LookupIn(es[i].children, rel[1..])
      else None
  }

  /** `fs.promises.stat(p)` on the filesystem whose root directory is `root`; None is a rejection. */
  function Stat(root: Node, p: Path): Option<Node> {
    if p == [] then Some(root)
    else if root.Dir? then LookupIn(root.children, p)
    else None
  }

  /** `fs.promises.readdir(p)`: the entries of a directory, None (a rejection) for anything else. */
  function ReadDir(root: Node, p: Path): (r: Option<seq<Node>>)
    ensures r.Some? <==> Stat(root, p).Some? && Stat(root, p).value.Dir?
    ensures r.Some? ==> r.value == Stat(root, p).value.children
  {
    match Stat(root, p)
    case Some(Dir(_, _, cs)) => Some(cs)
    case _ => None
  }

  /** No two entries of one directory share a name. */
  predicate DistinctNames(es: seq<Node>) {
    forall i, j :: 0 <= i < j < |es| ==> es[i].name != es[j].name
  }

  /** Entry names are distinct in every directory of the tree, as on a real filesystem. */
  predicate WellFormedEntries(es: seq<Node>)
    decreases es
  {
    DistinctNames(es) &&
    forall i :: 0 <= i < |es| ==> es[i].Dir? ==> WellFormedEntries(es[i].children)
  }

  predicate WellFormed(root: Node) {
    root.Dir? ==> WellFormedEntries(root.children)
  }

  /**
    `rel` leads from a directory whose entries are `es` to a file: every
    segment but the last names a directory, the last a non-directory.
   */
  predicate FileIn(es: seq<Node>, rel: Path)
    decreases es
  {
    |rel| > 0 &&
    exists i :: 0 <= i < |es| && es[i].name == rel[0] &&
      if |rel| == 1 then es[i].File?
      else es[i].Dir? && FileIn(es[i].children, rel[1..])
  }

  /** With distinct names, the first child called `name` is the only one. */
  lemma FindChildUnique(es: seq<Node>, k: nat)
    requires DistinctNames(es) && k < |es|
    ensures FindChild(es, es[k].name) == k
  {
  }

  /** In a well-formed tree, every file path looks up to a file of that name. */
  lemma {:induction false} FileInLookup(es: seq<Node>, rel: Path)
    requires WellFormedEntries(es) && FileIn(es, rel)
    ensures LookupIn(es, rel).Some? && LookupIn(es, rel).value.File?
    ensures LookupIn(es, rel).value.name == rel[|rel| - 1]
    decreases es
  {
    var k :| 0 <= k < |es| && es[k].name == rel[0] &&
      if |rel| == 1 then es[k].File? else es[k].Dir? && FileIn(es[k].children, rel[1..]);
    FindChildUnique(es, k);
    if |rel| > 1 {
      FileInLookup(es[k].children, rel[1..]);
    }
  }

  /** Looking up a path through a directory found on the way. */
  lemma {:induction false} LookupInAppend(es: seq<Node>, a: Path, b: Path, d: Node)
    requires LookupIn(es, a) == Some(d) && d.Dir? && b != []
    ensures LookupIn(es, a + b) == LookupIn(d.children, b)
    decreases es
  {
    var i := FindChild(es, a[0]);
    assert (a + b)[0] == a[0];
    if |a| > 1 {
      assert (a + b)[1..] == a[1..] + b;
      LookupInAppend(es[i].children, a[1..], b, d);
    } else {
      assert (a + b)[1..] == b;
    }
  }

  /** `stat(dir + rel)` is the lookup of `rel` among the entries `readdir(dir)` returned. */
  lemma StatBelow(root: Node, dir: Path, rel: Path)
    requires ReadDir(root, dir).Some? && rel != []
    ensures Stat(root, dir + rel) == LookupIn(ReadDir(root, dir).value, rel)
  {
    if dir == [] {
      assert dir + rel == rel;
    } else {
      LookupInAppend(root.children, dir, rel, Stat(root, dir).value);
    }
  }

  /** In a well-formed tree, a file path below a directory stats as that file. */
  lemma StatFileBelow(root: Node, dir: Path, rel: Path)
    requires WellFormed(root) && ReadDir(root, dir).Some?
    requires FileIn(ReadDir(root, dir).value, rel)
    ensures Stat(root, dir + rel).Some? && Stat(root, dir + rel).value.File?
    ensures Stat(root, dir + rel).value.name == rel[|rel| - 1]
  {
    StatBelow(root, dir, rel);
    WellFormedAt(root, dir);
    FileInLookup(ReadDir(root, dir).value, rel);
  }

  /**
    In a well-formed tree, reading `path.join(dir, entry.name)` for a
    directory entry of `readdir(dir)` returns that entry's own children.
   */
  lemma ReadDirChild(root: Node, dir: Path, k: nat)
    requires WellFormed(root) && ReadDir(root, dir).Some?
    requires k < |ReadDir(root, dir).value| && ReadDir(root, dir).value[k].Dir?
    ensures ReadDir(root, dir + [ReadDir(root, dir).value[k].name]) == Some(ReadDir(root, dir).value[k].children)
  {
    var es := ReadDir(root, dir).value;
    WellFormedAt(root, dir);
    FindChildUnique(es, k);
    StatBelow(root, dir, [es[k].name]);
  }

  /** Every directory of a well-formed tree is well-formed. */
  lemma WellFormedAt(root: Node, dir: Path)
    requires WellFormed(root) && ReadDir(root, dir).Some?
    ensures WellFormedEntries(ReadDir(root, dir).value)
  {
    if dir != [] {
      WellFormedLookupIn(root.children, dir);
    }
  }

  lemma {:induction false} WellFormedLookupIn(es: seq<Node>, rel: Path)
    requires WellFormedEntries(es) && LookupIn(es, rel).Some? && LookupIn(es, rel).value.Dir?
    ensures WellFormedEntries(LookupIn(es, rel).value.children)
    decreases es
  {
    var i := FindChild(es, rel[0]);
    if |rel| > 1 {
      WellFormedLookupIn(es[i].children, rel[1..]);
    }
  }
}
