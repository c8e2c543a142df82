/** `ls-tree --name-only`: the cursor-driven reader of tree records, and what it
    makes of trees the encoder writes and of malformed ones. */
module LsTree {
  import opened Results
  import opened Bytes
  import opened Hex
  import opened Framing
  import opened Store
  import opened Entries
  import opened Tree

  /** What `ls-tree --name-only` writes: the names printed, one per line, and the
      error it stops with, if any. Names printed before an error stay printed. */
  datatype Listing = Listing(names: seq<seq<byte>>, error: Option<Error>)

  /** What the reader makes of one record: its name and the cursor after its
      digest, or the error it stops with. */
  datatype RecordRead = Record(name: seq<byte>, next: nat) | Stop(error: Error)

  /** One record at cursor `i`: the first space ends the mode, the next NUL ends
      the name, and 20 digest bytes must follow; the name and the cursor after
      the digest, or the error the reader stops with. A record is at least 22
      bytes long: a space, a NUL and the digest. */
  function RecordAt(raw: seq<byte>, i: nat): (r: RecordRead)
    requires i < |raw|
    ensures r.Record? ==> i + 22 <= r.next <= |raw|
  {
    match IndexOf(raw, i, SPACE)
    case None => Stop(MissingSpace)
    case Some(sp) =>
      match IndexOf(raw, sp + 1, NUL)
      case None => Stop(MissingNul)
      case Some(nul) =>
        if nul + 1 + 20 > |raw| then Stop(TruncatedSha)
        else Record(raw[sp + 1..nul], nul + 21)
  }

  /** The records from cursor `i` to the end of the buffer: their names, up to
      the first record that cannot be read. */
  function NamesFrom(raw: seq<byte>, i: nat): (l: Listing)
    requires i <= |raw|
    ensures |l.names| * 22 <= |raw| - i
    decreases |raw| - i
  {
    if i == |raw| then Listing([], None)
    else match RecordAt(raw, i)
      case Stop(e) => Listing([], Some(e))
      case Record(name, next) =>
        var rest := NamesFrom(raw, next);
        Listing([name] + rest.names, rest.error)
  }

  /** A decompressed object as `ls-tree` reads it: the header ends at the first
      NUL and must start with `tree `; the records follow. */
  function ListTree(raw: seq<byte>): (l: Listing)
    ensures |l.names| * 22 <= |raw|
  {
    match IndexOf(raw, 0, NUL)
    case None => Listing([], Some(MissingHeaderNul))
    case Some(h) =>
      if !StartsWith(raw[..h], TreeKind + [SPACE]) then Listing([], Some(NotATree))
      else NamesFrom(raw, h + 1)
  }

  /** The header check of `ls_tree_name_only`: the header ends at the first NUL
      and must start with `tree `; the records are read from just after it.
      `ListTree` is its specification. */
  method ParseTreeNames(raw: seq<byte>) returns (l: Listing)
    ensures l == ListTree(raw)
  {
    var found := IndexOf(raw, 0, NUL);
    if found.None? {
      return Listing([], Some(MissingHeaderNul));
    }
    var headerEnd := found.value;
    if !StartsWith(raw[..headerEnd], TreeKind + [SPACE]) {
      return Listing([], Some(NotATree));
    }
    l := ParseRecords(raw, headerEnd + 1);
  }

  /** The record loop of `ls_tree_name_only`, with its mutable cursor `i`. */
  method ParseRecords(raw: seq<byte>, start: nat) returns (l: Listing)
    requires start <= |raw|
    ensures l == NamesFrom(raw, start)
  {
    var i := start;
    var names: seq<seq<byte>> := [];
    while i < |raw|
      invariant start <= i <= |raw|
      invariant NamesFrom(raw, start) == Listing(names + NamesFrom(raw, i).names, NamesFrom(raw, i).error)
      decreases |raw| - i
    {
      var record := ReadRecord(raw, i);
      if record.Stop? {
        assert names + [] == names;
        return Listing(names, Some(record.error));
      }
      var name, next := record.name, record.next;
      ListingAppend(NamesFrom(raw, start), names, NamesFrom(raw, i), name, NamesFrom(raw, next));
      names, i := names + [name], next;
    }
    assert names + [] == names;
    return Listing(names, None);
  }

  /** A space, then a NUL, then at least 20 bytes: the record is read whole. */
  lemma RecordAtFound(raw: seq<byte>, i: nat, sp: nat, nul: nat)
    requires i < |raw| && IndexOf(raw, i, SPACE) == Some(sp)
    requires sp + 1 <= |raw| && IndexOf(raw, sp + 1, NUL) == Some(nul) && nul + 21 <= |raw|
    ensures RecordAt(raw, i) == Record(raw[sp + 1..nul], nul + 21)
  {
  }

  /** A record read whole contributes its name, then the reader goes on after it. */
  lemma NamesFromRecord(raw: seq<byte>, i: nat, name: seq<byte>, next: nat)
    requires i < |raw| && RecordAt(raw, i) == Record(name, next)
    ensures NamesFrom(raw, i) == Listing([name] + NamesFrom(raw, next).names, NamesFrom(raw, next).error)
  {
  }

  /** One pass of the reader's loop: the space that ends the mode, the NUL that
      ends the name, then 20 digest bytes, with the loop's cursor arithmetic.
      `RecordAt` is its specification. */
  method ReadRecord(raw: seq<byte>, i: nat) returns (r: RecordRead)
    requires i < |raw|
    ensures r == RecordAt(raw, i)
  {
    var space := IndexOf(raw, i, SPACE);
    if space.None? {
      return Stop(MissingSpace);
    }
    var j: nat := space.value + 1;
    var nul := IndexOf(raw, j, NUL);
    if nul.None? {
      return Stop(MissingNul);
    }
    var name := raw[j..nul.value];
    j := nul.value + 1;
    if j + 20 > |raw| {
      return Stop(TruncatedSha);
    }
    j := j + 20;
    return Record(name, j);
  }

  /** Moving one name from the listing still to come to the names already printed. */
  lemma ListingAppend(whole: Listing, names: seq<seq<byte>>, here: Listing, name: seq<byte>, next: Listing)
    requires whole == Listing(names + here.names, here.error)
    requires here == Listing([name] + next.names, next.error)
    ensures whole == Listing((names + [name]) + next.names, next.error)
  {
    assert names + ([name] + next.names) == (names + [name]) + next.names;
  }

  // ---------------------------------------------------------------------------
  // What the reader makes of encoded trees

  /** No mode text holds a space. */
  lemma ModeHasNoSpace(m: Mode)
    ensures forall k :: 0 <= k < |ModeBytes(m)| ==> ModeBytes(m)[k] != SPACE
  {
  }

  /** One record as the encoder writes it: the reader takes its name and moves
      on to the bytes after its digest. */
  lemma RecordStep(raw: seq<byte>, i: nat, e: TreeEntry, rest: seq<byte>, next: nat)
    requires IsValidHexSha(e.sha) && NulFree(e.name)
    requires i <= |raw| && raw[i..] == EntryBytes(e) + rest && next == i + |EntryBytes(e)|
    ensures next <= |raw| && raw[next..] == rest
    ensures i < |raw| && RecordAt(raw, i) == Record(e.name, next)
  {
    var digest := DigestBytes(e.sha);
    var tail := digest + rest;
    var sp := i + |ModeBytes(e.mode)|;
    var nul := sp + 1 + |e.name|;
    assert raw[nul + 1..] == tail by {
      AppendAssoc(ModeBytes(e.mode) + [SPACE] + e.name + [NUL], digest, rest);
      ModeHasNoSpace(e.mode);
      FieldsAt(raw, i, ModeBytes(e.mode), e.name, tail, sp, nul);
    }
    assert IndexOf(raw, i, SPACE) == Some(sp) && IndexOf(raw, sp + 1, NUL) == Some(nul)
           && raw[sp + 1..nul] == e.name by {
      AppendAssoc(ModeBytes(e.mode) + [SPACE] + e.name + [NUL], digest, rest);
      ModeHasNoSpace(e.mode);
      FieldsAt(raw, i, ModeBytes(e.mode), e.name, tail, sp, nul);
    }
    assert next == nul + 21;
    DropConcat(raw, nul + 1, digest, rest);
    RecordAtFound(raw, i, sp, nul);
  }

  /** Reading over well-formed records yields their names in order, then whatever
      the bytes after them yield. */
  lemma {:induction false} NamesFromBody(raw: seq<byte>, i: nat, es: seq<TreeEntry>, suffix: seq<byte>, j: nat)
    requires ShasValid(es) && NamesNulFree(es)
    requires i <= |raw| && raw[i..] == TreeBody(es) + suffix && j == i + |TreeBody(es)|
    ensures j <= |raw| && raw[j..] == suffix
    ensures NamesFrom(raw, i) == Listing(Names(es) + NamesFrom(raw, j).names, NamesFrom(raw, j).error)
    decreases |es|
  {
    if es == [] {
      assert Names(es) + NamesFrom(raw, i).names == NamesFrom(raw, i).names;
    } else {
      var e, more := es[0], es[1..];
      var moreBody := TreeBody(more);
      AppendAssoc(EntryBytes(e), moreBody, suffix);
      assert NulFree(e.name);
      var next := i + |EntryBytes(e)|;
      RecordStep(raw, i, e, moreBody + suffix, next);
      NamesFromRecord(raw, i, e.name, next);
      assert ShasValid(more) && NamesNulFree(more);
      NamesFromBody(raw, next, more, suffix, j);
      AppendAssoc([e.name], Names(more), NamesFrom(raw, j).names);
    }
  }


  /** A tree object made of well-formed records followed by `suffix`: the header
      is accepted and the records' names come out first, then whatever the reader
      makes of `suffix`, which starts at `at`. */
  lemma TreeWithSuffix(es: seq<TreeEntry>, suffix: seq<byte>, at: nat)
    requires ShasValid(es) && NamesNulFree(es)
    requires at == HeaderEnd(TreeKind, TreeBody(es) + suffix) + 1 + |TreeBody(es)|
    ensures at <= |Frame(TreeKind, TreeBody(es) + suffix)|
    ensures Frame(TreeKind, TreeBody(es) + suffix)[at..] == suffix
    ensures ListTree(Frame(TreeKind, TreeBody(es) + suffix))
         == Listing(Names(es) + NamesFrom(Frame(TreeKind, TreeBody(es) + suffix), at).names,
                    NamesFrom(Frame(TreeKind, TreeBody(es) + suffix), at).error)
  {
    var payload := TreeBody(es) + suffix;
    var raw := Frame(TreeKind, payload);
    var h := HeaderEnd(TreeKind, payload);
    assert h < |raw| && raw[h + 1..] == payload by {
      FrameParts(TreeKind, payload);
    }
    assert ListTree(raw) == NamesFrom(raw, h + 1) by {
      KindsNulFree();
      FrameParts(TreeKind, payload);
      FrameFirstNul(TreeKind, payload);
      assert raw[..h][..|TreeKind| + 1] == TreeKind + [SPACE];
      HeaderAccepted(raw, h);
    }
    NamesFromBody(raw, h + 1, es, suffix, at);
  }

  /** An object whose first NUL ends a header starting with `tree ` is listed
      from just after that NUL. */
  lemma HeaderAccepted(raw: seq<byte>, h: nat)
    requires h < |raw| && IndexOf(raw, 0, NUL) == Some(h) && StartsWith(raw[..h], TreeKind + [SPACE])
    ensures ListTree(raw) == NamesFrom(raw, h + 1)
  {
  }

  /** Round trip: listing the names of an encoded tree gives the entries' names in
      order and no error, whenever no name holds a NUL. */
  lemma ListTreeRoundTrip(es: seq<TreeEntry>)
    requires ShasValid(es) && NamesNulFree(es)
    ensures ListTree(TreeObject(es)) == Listing(Names(es), None)
  {
    var empty: seq<byte> := [];
    assert TreeBody(es) + empty == TreeBody(es);
    TreeWithSuffix(es, empty, HeaderEnd(TreeKind, TreeBody(es)) + 1 + |TreeBody(es)|);
    assert Names(es) + [] == Names(es);
  }

  /** A last record cut off inside its digest: the earlier names are printed, then
      the reader stops with "truncated sha". */
  lemma ListTreeTruncated(es: seq<TreeEntry>, m: Mode, name: seq<byte>, partial: seq<byte>)
    requires ShasValid(es) && NamesNulFree(es) && NulFree(name) && |partial| < 20
    ensures ListTree(Frame(TreeKind, TreeBody(es) + (ModeBytes(m) + [SPACE] + name + [NUL] + partial)))
         == Listing(Names(es), Some(TruncatedSha))
  {
    var suffix := ModeBytes(m) + [SPACE] + name + [NUL] + partial;
    var at := HeaderEnd(TreeKind, TreeBody(es) + suffix) + 1 + |TreeBody(es)|;
    TreeWithSuffix(es, suffix, at);
    CutRecord(Frame(TreeKind, TreeBody(es) + suffix), at, m, name, partial);
    assert Names(es) + [] == Names(es);
  }

  /** A record whose digest is cut short ends the buffer: "truncated sha". */
  lemma CutRecord(raw: seq<byte>, at: nat, m: Mode, name: seq<byte>, partial: seq<byte>)
    requires NulFree(name) && |partial| < 20
    requires at <= |raw| && raw[at..] == ModeBytes(m) + [SPACE] + name + [NUL] + partial
    ensures NamesFrom(raw, at) == Listing([], Some(TruncatedSha))
  {
    var sp := at + |ModeBytes(m)|;
    var nul := sp + 1 + |name|;
    ModeHasNoSpace(m);
    FieldsAt(raw, at, ModeBytes(m), name, partial, sp, nul);
    assert RecordAt(raw, at) == Stop(TruncatedSha);
  }

  /** Trailing bytes without a space: the earlier names are printed, then the reader
      stops with "missing space". */
  lemma ListTreeMissingSpace(es: seq<TreeEntry>, junk: seq<byte>)
    requires ShasValid(es) && NamesNulFree(es)
    requires junk != [] && forall k :: 0 <= k < |junk| ==> junk[k] != SPACE
    ensures ListTree(Frame(TreeKind, TreeBody(es) + junk)) == Listing(Names(es), Some(MissingSpace))
  {
    var at := HeaderEnd(TreeKind, TreeBody(es) + junk) + 1 + |TreeBody(es)|;
    TreeWithSuffix(es, junk, at);
    SpacelessTail(Frame(TreeKind, TreeBody(es) + junk), at, junk);
    assert Names(es) + [] == Names(es);
  }

  /** Bytes without a space end the buffer: "missing space". */
  lemma SpacelessTail(raw: seq<byte>, at: nat, junk: seq<byte>)
    requires junk != [] && forall k :: 0 <= k < |junk| ==> junk[k] != SPACE
    requires at <= |raw| && raw[at..] == junk
    ensures NamesFrom(raw, at) == Listing([], Some(MissingSpace))
  {
    IndexOfNone(raw, at, junk, SPACE);
    assert RecordAt(raw, at) == Stop(MissingSpace);
  }

  /** A last record whose name never ends in a NUL: the earlier names are printed,
      then the reader stops with "missing NUL". */
  lemma ListTreeMissingNul(es: seq<TreeEntry>, m: Mode, name: seq<byte>)
    requires ShasValid(es) && NamesNulFree(es) && NulFree(name)
    ensures ListTree(Frame(TreeKind, TreeBody(es) + (ModeBytes(m) + [SPACE] + name)))
         == Listing(Names(es), Some(MissingNul))
  {
    var suffix := ModeBytes(m) + [SPACE] + name;
    var at := HeaderEnd(TreeKind, TreeBody(es) + suffix) + 1 + |TreeBody(es)|;
    TreeWithSuffix(es, suffix, at);
    UnterminatedRecord(Frame(TreeKind, TreeBody(es) + suffix), at, m, name);
    assert Names(es) + [] == Names(es);
  }

  /** A mode, a space and a NUL-free name end the buffer: "missing NUL". */
  lemma UnterminatedRecord(raw: seq<byte>, at: nat, m: Mode, name: seq<byte>)
    requires NulFree(name)
    requires at <= |raw| && raw[at..] == ModeBytes(m) + [SPACE] + name
    ensures NamesFrom(raw, at) == Listing([], Some(MissingNul))
  {
    var sp := at + |ModeBytes(m)|;
    ModeHasNoSpace(m);
    SplitAt(raw, at, ModeBytes(m), SPACE, name);
    IndexOfNone(raw, sp + 1, name, NUL);
    assert RecordAt(raw, at) == Stop(MissingNul);
  }

  /** A buffer without any NUL has no header: "missing header NUL". */
  lemma ListTreeNoHeader(raw: seq<byte>)
    requires NulFree(raw)
    ensures ListTree(raw) == Listing([], Some(MissingHeaderNul))
  {
  }

  /** A blob is not a tree: its header starts with `blob `. */
  lemma ListTreeRejectsBlob(content: seq<byte>)
    ensures ListTree(BlobObject(content)) == Listing([], Some(NotATree))
  {
    var raw := BlobObject(content);
    var h := HeaderEnd(BlobKind, content);
    KindsNulFree();
    FrameParts(BlobKind, content);
    FrameFirstNul(BlobKind, content);
    assert raw[..h][0] == 98 != TreeKind[0];
  }

  /** `ls_tree_name_only`: rejects a malformed digest before looking anything up,
      then reads, decompresses and lists the object at the digest's path. */
  method LsTreeNameOnly(store: ObjectStore, sha: string) returns (l: Listing)
    ensures !IsValidHexSha(sha) ==> l == Listing([], Some(InvalidObjectHash))
    ensures IsValidHexSha(sha) && ObjectPathFromSha(sha) !in store.files ==>
      l == Listing([], Some(ObjectNotFound))
    ensures IsValidHexSha(sha) && ObjectPathFromSha(sha) in store.files ==>
      match store.decompress(store.files[ObjectPathFromSha(sha)])
      case None => l == Listing([], Some(CorruptObject))
      case Some(raw) => l == ListTree(raw)
  {
    if !(|sha| == 40 && forall i :: 0 <= i < |sha| ==> IsHexDigit(sha[i])) {
      return Listing([], Some(InvalidObjectHash));
    }
    var path := ObjectPathFromSha(sha);
    if path !in store.files {
      return Listing([], Some(ObjectNotFound));
    }
    var raw := store.decompress(store.files[path]);
    if raw.None? {
      return Listing([], Some(CorruptObject));
    }
    l := ParseTreeNames(raw.value);
  }
}
