/** `write-tree`: the walk over a working directory that stores every file and
    symlink as a blob and every directory as a tree, innermost first. The
    filesystem is a value: a directory is the sequence of its items in the order
    the directory listing yields them. */
module Walker {
  import opened Results
  import opened Bytes
  import opened Hex
  import opened Framing
  import opened Store
  import opened Entries
  import opened Tree
  import opened LsTree

  /** What `symlink_metadata` reports for an item: a directory, a regular file
      (with whether any execute bit is set), a symbolic link (with its target's
      bytes), or anything else, which the walk skips. */
  datatype Node =
    | Directory(items: seq<DirItem>)
    | File(content: seq<byte>, executable: bool)
    | Symlink(target: seq<byte>)
    | Special

  datatype DirItem = DirItem(name: seq<byte>, node: Node)

  /** The repository's own directory, never part of a tree. */
  const GitDirName: seq<byte> := [46, 103, 105, 116] // ".git"

  /** The entries `write_tree_for_dir` collects from the first `k` items of `dir`,
      in listing order. */
  function DirEntries(sha1: seq<byte> -> Digest, dir: Node, k: nat): (es: seq<TreeEntry>)
    requires dir.Directory? && k <= |dir.items|
    ensures ShasValid(es)
    decreases dir, 0, k
  {
    if k == 0 then []
    else
      var before := DirEntries(sha1, dir, k - 1);
      var item := dir.items[k - 1];
      if item.name == GitDirName then before
      else match item.node
        case Directory(_) => before + [TreeEntry(item.name, Subdirectory, DirDigest(sha1, item.node))]
        case File(content, executable) =>
          before + [TreeEntry(item.name, if executable then ExecutableFile else RegularFile,
                              Sha1Hex(sha1, BlobObject(content)))]
        case Symlink(target) => before + [TreeEntry(item.name, SymbolicLink, Sha1Hex(sha1, BlobObject(target)))]
        case Special => before
  }

  /** The tree object of a directory: its entries sorted by name and encoded, one
      record of at least 27 bytes per collected entry after a `tree` header. */
  function DirTreeObject(sha1: seq<byte> -> Digest, dir: Node): (r: seq<byte>)
    requires dir.Directory?
    ensures |r| > 27 * |DirEntries(sha1, dir, |dir.items|)| + |TreeKind| + 2
    ensures r[..|TreeKind|] == TreeKind
    decreases dir, 1
  {
    var es := DirEntries(sha1, dir, |dir.items|);
    SortByNameKeepsShas(es);
    TreeObject(SortByName(es))
  }

  /** The digest `write_tree_for_dir` returns for a directory: 40 lowercase hex
      digits, fit for the parent's tree entry. */
  function DirDigest(sha1: seq<byte> -> Digest, dir: Node): (d: string)
    requires dir.Directory?
    ensures IsLowerHexSha(d) && IsValidHexSha(d)
    decreases dir, 2
  {
    Sha1Hex(sha1, DirTreeObject(sha1, dir))
  }

  /** The objects stored while walking the first `k` items of `dir`, in order:
      at least one for every entry collected. */
  function ItemWrites(sha1: seq<byte> -> Digest, dir: Node, k: nat): (w: seq<seq<byte>>)
    requires dir.Directory? && k <= |dir.items|
    ensures |w| >= |DirEntries(sha1, dir, k)|
    decreases dir, 0, k
  {
    if k == 0 then []
    else
      var before := ItemWrites(sha1, dir, k - 1);
      var item := dir.items[k - 1];
      if item.name == GitDirName then before
      else match item.node
        case Directory(_) => before + DirWrites(sha1, item.node)
        case File(content, _) => before + [BlobObject(content)]
        case Symlink(target) => before + [BlobObject(target)]
        case Special => before
  }

  /** The objects stored by `write_tree_for_dir`: everything below the directory,
      then the directory's own tree. */
  function DirWrites(sha1: seq<byte> -> Digest, dir: Node): (w: seq<seq<byte>>)
    requires dir.Directory?
    ensures |w| > |DirEntries(sha1, dir, |dir.items|)| && w[|w| - 1] == DirTreeObject(sha1, dir)
    decreases dir, 1
  {
    ItemWrites(sha1, dir, |dir.items|) + [DirTreeObject(sha1, dir)]
  }

  /** File names never hold a NUL byte. */
  predicate NamesNulFreeIn(dir: Node)
    requires dir.Directory?
  {
    forall i :: 0 <= i < |dir.items| ==> NulFree(dir.items[i].name)
  }

  /** The collected entries carry the items' names, which hold no NUL, and none
      of them is `.git`. */
  lemma {:induction false} DirEntriesNames(sha1: seq<byte> -> Digest, dir: Node, k: nat)
    requires dir.Directory? && k <= |dir.items| && NamesNulFreeIn(dir)
    ensures NamesNulFree(DirEntries(sha1, dir, k))
    ensures forall i :: 0 <= i < |DirEntries(sha1, dir, k)| ==> DirEntries(sha1, dir, k)[i].name != GitDirName
  {
    if k > 0 {
      DirEntriesNames(sha1, dir, k - 1);
      assert NulFree(dir.items[k - 1].name);
    }
  }

  /** The collected entries of the first `k` items do not depend on the items
      listed after them. */
  lemma {:induction false} DirEntriesPrefix(sha1: seq<byte> -> Digest, items: seq<DirItem>, more: seq<DirItem>, k: nat)
    requires k <= |items|
    ensures DirEntries(sha1, Directory(items + more), k) == DirEntries(sha1, Directory(items), k)
    ensures ItemWrites(sha1, Directory(items + more), k) == ItemWrites(sha1, Directory(items), k)
  {
    if k > 0 {
      DirEntriesPrefix(sha1, items, more, k - 1);
      assert (items + more)[k - 1] == items[k - 1];
    }
  }

  /** Past a `.git` item, the walk collects and stores what it would without it. */
  lemma {:induction false} GitDirSkipped(sha1: seq<byte> -> Digest, items: seq<DirItem>, git: Node,
                                         more: seq<DirItem>, k: nat)
    requires k <= |more|
    ensures var with, without := Directory(items + [DirItem(GitDirName, git)] + more), Directory(items + more);
      && DirEntries(sha1, with, |items| + 1 + k) == DirEntries(sha1, without, |items| + k)
      && ItemWrites(sha1, with, |items| + 1 + k) == ItemWrites(sha1, without, |items| + k)
  {
    var with, without := Directory(items + [DirItem(GitDirName, git)] + more), Directory(items + more);
    if k == 0 {
      assert with.items == items + ([DirItem(GitDirName, git)] + more);
      DirEntriesPrefix(sha1, items, [DirItem(GitDirName, git)] + more, |items|);
      DirEntriesPrefix(sha1, items, more, |items|);
      ItemStep(sha1, with, |items|);
    } else {
      GitDirSkipped(sha1, items, git, more, k - 1);
      assert with.items[|items| + k] == more[k - 1] == without.items[|items| + k - 1];
      SameItemStep(sha1, with, |items| + k, without, |items| + k - 1);
    }
  }

  /** Two walks that have collected and stored the same so far, and list the
      same next item, still agree after it. */
  lemma SameItemStep(sha1: seq<byte> -> Digest, d1: Node, k1: nat, d2: Node, k2: nat)
    requires d1.Directory? && d2.Directory? && k1 < |d1.items| && k2 < |d2.items|
    requires d1.items[k1] == d2.items[k2]
    requires DirEntries(sha1, d1, k1) == DirEntries(sha1, d2, k2)
    requires ItemWrites(sha1, d1, k1) == ItemWrites(sha1, d2, k2)
    ensures DirEntries(sha1, d1, k1 + 1) == DirEntries(sha1, d2, k2 + 1)
    ensures ItemWrites(sha1, d1, k1 + 1) == ItemWrites(sha1, d2, k2 + 1)
  {
  }

  /** A `.git` item, whatever it holds and wherever it is listed, changes neither
      the tree of a directory nor what the walk stores. */
  lemma GitDirIgnored(sha1: seq<byte> -> Digest, items: seq<DirItem>, git: Node, more: seq<DirItem>)
    ensures var with, without := Directory(items + [DirItem(GitDirName, git)] + more), Directory(items + more);
      && DirDigest(sha1, with) == DirDigest(sha1, without)
      && DirWrites(sha1, with) == DirWrites(sha1, without)
  {
    var with, without := Directory(items + [DirItem(GitDirName, git)] + more), Directory(items + more);
    GitDirSkipped(sha1, items, git, more, |more|);
    assert |with.items| == |items| + 1 + |more| && |without.items| == |items| + |more|;
    SameWalkSameTree(sha1, with, without);
  }

  /** Directories whose walks collect the same entries and store the same objects
      have the same tree digest and the same writes. */
  lemma SameWalkSameTree(sha1: seq<byte> -> Digest, d1: Node, d2: Node)
    requires d1.Directory? && d2.Directory?
    requires DirEntries(sha1, d1, |d1.items|) == DirEntries(sha1, d2, |d2.items|)
    requires ItemWrites(sha1, d1, |d1.items|) == ItemWrites(sha1, d2, |d2.items|)
    ensures DirDigest(sha1, d1) == DirDigest(sha1, d2) && DirWrites(sha1, d1) == DirWrites(sha1, d2)
  {
    assert DirTreeObject(sha1, d1) == DirTreeObject(sha1, d2);
  }

  /** A directory holding only the regular file `foo.txt` becomes a tree with the
      single record `100644 foo.txt\0<the blob's 20-byte digest>`. */
  lemma SingleFileTree(sha1: seq<byte> -> Digest, content: seq<byte>)
    ensures var name: seq<byte> := [102, 111, 111, 46, 116, 120, 116]; // "foo.txt"
      var dir := Directory([DirItem(name, File(content, false))]);
      && DirEntries(sha1, dir, 1) == [TreeEntry(name, RegularFile, Sha1Hex(sha1, BlobObject(content)))]
      && DirTreeObject(sha1, dir)
         == Frame(TreeKind, [49, 48, 48, 54, 52, 52, SPACE] + name + [NUL] + sha1(BlobObject(content)))
  {
    var name: seq<byte> := [102, 111, 111, 46, 116, 120, 116];
    var dir := Directory([DirItem(name, File(content, false))]);
    var e := TreeEntry(name, RegularFile, Sha1Hex(sha1, BlobObject(content)));
    assert name != GitDirName by {
      assert name[0] != GitDirName[0];
    }
    assert DirEntries(sha1, dir, 0) == [];
    assert DirEntries(sha1, dir, 1) == [e];
    assert SortByName([e]) == [e];
    SingleRecord(e);
  }

  /** The body of a tree whose only record is a regular file. */
  lemma SingleRecord(e: TreeEntry)
    requires IsValidHexSha(e.sha) && e.mode == RegularFile
    ensures TreeBody([e]) == [49, 48, 48, 54, 52, 52, SPACE] + e.name + [NUL] + DigestBytes(e.sha)
  {
    assert TreeBody([e]) == EntryBytes(e) + TreeBody([]);
  }

  /** After the walk the directory's tree is stored at the path of the digest
      `write_tree_for_dir` returns. */
  lemma TreeStoredAtDigest(sha1: seq<byte> -> Digest, compress: seq<byte> -> seq<byte>,
                           files: map<ObjectPath, seq<byte>>, dir: Node)
    requires dir.Directory?
    ensures ObjectPathFromSha(DirDigest(sha1, dir)) in StoreAll(sha1, compress, files, DirWrites(sha1, dir))
  {
    var ws := DirWrites(sha1, dir);
    StoreAllHolds(sha1, compress, files, ws);
    assert ws[|ws| - 1] == DirTreeObject(sha1, dir);
  }

  /** `write-tree` then `ls-tree --name-only`: when the codec round-trips the tree
      and no two stored objects collide, the file at the returned digest holds the
      directory's tree, and reading it lists the item names in byte order,
      without `.git` and without error. */
  lemma WriteTreeThenList(sha1: seq<byte> -> Digest, compress: seq<byte> -> seq<byte>,
                          decompress: seq<byte> -> Option<seq<byte>>,
                          files: map<ObjectPath, seq<byte>>, pool: set<seq<byte>>, dir: Node)
    requires dir.Directory? && NamesNulFreeIn(dir)
    requires StoredFrom(sha1, compress, files, pool) && CollisionFree(sha1, pool)
    requires forall k :: 0 <= k < |DirWrites(sha1, dir)| ==> DirWrites(sha1, dir)[k] in pool
    requires decompress(compress(DirTreeObject(sha1, dir))) == Some(DirTreeObject(sha1, dir))
    ensures var after := StoreAll(sha1, compress, files, DirWrites(sha1, dir));
      var p := ObjectPathFromSha(DirDigest(sha1, dir));
      && p in after
      && decompress(after[p]) == Some(DirTreeObject(sha1, dir))
    ensures var es := SortByName(DirEntries(sha1, dir, |dir.items|));
      && ListTree(DirTreeObject(sha1, dir)) == Listing(Names(es), None)
      && SortedByName(es)
      && forall i :: 0 <= i < |es| ==> es[i].name != GitDirName
  {
    var ws := DirWrites(sha1, dir);
    var tree := DirTreeObject(sha1, dir);
    var after := StoreAll(sha1, compress, files, ws);
    TreeStoredAtDigest(sha1, compress, files, dir);
    StoreAllStoredFrom(sha1, compress, files, ws, pool);
    assert ws[|ws| - 1] == tree;
    StoredAt(sha1, compress, after, pool, tree);
    DirTreeListing(sha1, dir);
  }

  /** Listing the names of a directory's tree gives the names of its entries in
      byte order, never `.git`, and no error. */
  lemma DirTreeListing(sha1: seq<byte> -> Digest, dir: Node)
    requires dir.Directory? && NamesNulFreeIn(dir)
    ensures var es := SortByName(DirEntries(sha1, dir, |dir.items|));
      && ListTree(DirTreeObject(sha1, dir)) == Listing(Names(es), None)
      && SortedByName(es)
      && forall i :: 0 <= i < |es| ==> es[i].name != GitDirName
  {
    var entries := DirEntries(sha1, dir, |dir.items|);
    var es := SortByName(entries);
    DirEntriesNames(sha1, dir, |dir.items|);
    SortByNameKeepsShas(entries);
    SortByNameKeepsNames(entries);
    SortByNameCorrect(entries);
    ListTreeRoundTrip(es);
    forall i | 0 <= i < |es|
      ensures es[i].name != GitDirName
    {
      assert es[i] in multiset(es);
      assert es[i] in multiset(entries);
      var k :| 0 <= k < |entries| && entries[k] == es[i];
    }
  }

  /** What the walk collects and stores for item `k` of `dir`. */
  lemma ItemStep(sha1: seq<byte> -> Digest, dir: Node, k: nat)
    requires dir.Directory? && k < |dir.items|
    ensures var item := dir.items[k];
      item.name == GitDirName || item.node.Special? ==>
        && DirEntries(sha1, dir, k + 1) == DirEntries(sha1, dir, k)
        && ItemWrites(sha1, dir, k + 1) == ItemWrites(sha1, dir, k)
    ensures var item := dir.items[k];
      item.name != GitDirName && item.node.Directory? ==>
        && DirEntries(sha1, dir, k + 1)
           == DirEntries(sha1, dir, k) + [TreeEntry(item.name, Subdirectory, DirDigest(sha1, item.node))]
        && ItemWrites(sha1, dir, k + 1) == ItemWrites(sha1, dir, k) + DirWrites(sha1, item.node)
    ensures var item := dir.items[k];
      item.name != GitDirName && item.node.File? ==>
        && DirEntries(sha1, dir, k + 1)
           == DirEntries(sha1, dir, k) + [TreeEntry(item.name, if item.node.executable then ExecutableFile else RegularFile,
                                                    Sha1Hex(sha1, BlobObject(item.node.content)))]
        && ItemWrites(sha1, dir, k + 1) == ItemWrites(sha1, dir, k) + [BlobObject(item.node.content)]
    ensures var item := dir.items[k];
      item.name != GitDirName && item.node.Symlink? ==>
        && DirEntries(sha1, dir, k + 1)
           == DirEntries(sha1, dir, k) + [TreeEntry(item.name, SymbolicLink, Sha1Hex(sha1, BlobObject(item.node.target)))]
        && ItemWrites(sha1, dir, k + 1) == ItemWrites(sha1, dir, k) + [BlobObject(item.node.target)]
  {
  }

  /** `write_tree_for_dir`: stores the blobs and subtrees of `dir` as it lists
      them, sorts the collected entries by name, encodes them and stores the
      resulting tree. */
  method WriteTreeForDir(store: ObjectStore, dir: Node) returns (sha: string)
    requires dir.Directory?
    modifies store
    ensures sha == DirDigest(store.sha1, dir)
    ensures store.files == StoreAll(store.sha1, store.compress, old(store.files), DirWrites(store.sha1, dir))
    decreases dir, 1
  {
    var entries: seq<TreeEntry> := [];
    for k := 0 to |dir.items|
      invariant entries == DirEntries(store.sha1, dir, k)
      invariant store.files == StoreAll(store.sha1, store.compress, old(store.files), ItemWrites(store.sha1, dir, k))
    {
      entries := WriteItem(store, dir, k, entries, old(store.files));
    }
    ghost var walked := store.files;
    sha := WriteTreeObject(store, entries);
    ghost var tree := DirTreeObject(store.sha1, dir);
    assert store.files == StoreObject(store.sha1, store.compress, walked, tree);
    StoreAllSingle(store.sha1, store.compress, walked, tree);
    StoreAllAppend(store.sha1, store.compress, old(store.files), ItemWrites(store.sha1, dir, |dir.items|), [tree]);
  }

  /** One pass of the listing loop of `write_tree_for_dir`: skips `.git` and
      anything that is neither a directory, a file nor a symlink; otherwise
      stores the item (a subtree recursively, a file's content or a link's
      target as a blob) and appends its entry. */
  method WriteItem(store: ObjectStore, dir: Node, k: nat, entries: seq<TreeEntry>,
                   ghost start: map<ObjectPath, seq<byte>>) returns (next: seq<TreeEntry>)
    requires dir.Directory? && k < |dir.items|
    requires entries == DirEntries(store.sha1, dir, k)
    requires store.files == StoreAll(store.sha1, store.compress, start, ItemWrites(store.sha1, dir, k))
    modifies store
    ensures next == DirEntries(store.sha1, dir, k + 1)
    ensures store.files == StoreAll(store.sha1, store.compress, start, ItemWrites(store.sha1, dir, k + 1))
    decreases dir, 0
  {
    var item := dir.items[k];
    ghost var done := ItemWrites(store.sha1, dir, k);
    ItemStep(store.sha1, dir, k);
    next := entries;
    if item.name == GitDirName {
      return;
    }
    match item.node {
      case Directory(_) =>
        var child := WriteTreeForDir(store, item.node);
        StoreAllAppend(store.sha1, store.compress, start, done, DirWrites(store.sha1, item.node));
        next := entries + [TreeEntry(item.name, Subdirectory, child)];
      case File(content, executable) =>
        var mode := if executable then ExecutableFile else RegularFile;
        var blob := WriteBlobFromBytes(store, content);
        StoreAllAppend(store.sha1, store.compress, start, done, [BlobObject(content)]);
        next := entries + [TreeEntry(item.name, mode, blob)];
      case Symlink(target) =>
        var blob := WriteBlobFromBytes(store, target);
        StoreAllAppend(store.sha1, store.compress, start, done, [BlobObject(target)]);
        next := entries + [TreeEntry(item.name, SymbolicLink, blob)];
      case Special =>
    }
  }

  /** The tail of `write_tree_for_dir`: sorts the collected entries by name,
      encodes them, frames the body as a tree and stores it. */
  method WriteTreeObject(store: ObjectStore, entries: seq<TreeEntry>) returns (sha: string)
    requires ShasValid(entries)
    modifies store
    ensures ShasValid(SortByName(entries))
    ensures sha == Sha1Hex(store.sha1, TreeObject(SortByName(entries)))
    ensures store.files == StoreObject(store.sha1, store.compress, old(store.files), TreeObject(SortByName(entries)))
  {
    var sorted := new TreeEntry[|entries|](i requires 0 <= i < |entries| => entries[i]);
    assert sorted[..] == entries;
    SortEntries(sorted);
    SortByNameKeepsShas(entries);
    var body := EncodeTreeBody(sorted[..]);
    if body.Err? {
      assert false;
    }
    var obj := Header(TreeKind, |body.value|) + body.value;
    sha := Sha1Hex(store.sha1, obj);
    store.CompressAndWriteObject(obj, sha);
  }
}
