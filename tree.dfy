/** Tree objects: the binary record layout `<mode> <name>\0<20 digest bytes>`
    and the body and object built from entries in order. */
module Tree {
  import opened Results
  import opened Bytes
  import opened Hex
  import opened Framing
  import opened Entries

  /** One record: `<mode> <name>\0` and the 20 raw digest bytes. A record is
      22 bytes longer than its mode and name, and ends with the digest. */
  function EntryBytes(e: TreeEntry): (r: seq<byte>)
    requires IsValidHexSha(e.sha)
    ensures |r| == |ModeBytes(e.mode)| + |e.name| + 22
    ensures r[|r| - 20..] == DigestBytes(e.sha)
  {
    ModeBytes(e.mode) + [SPACE] + e.name + [NUL] + DigestBytes(e.sha)
  }

  /** The records of the entries, in order, with nothing between them. Every
      record takes at least 27 bytes: a mode of five digits or more, a space, a
      NUL and 20 digest bytes. */
  function TreeBody(es: seq<TreeEntry>): (r: seq<byte>)
    requires ShasValid(es)
    ensures |r| >= 27 * |es|
  {
    if es == [] then [] else EntryBytes(es[0]) + TreeBody(es[1..])
  }

  /** The tree object for entries already in order: a `tree` header, then the body. */
  function TreeObject(es: seq<TreeEntry>): (r: seq<byte>)
    requires ShasValid(es)
    ensures |r| > 27 * |es| + |TreeKind| + 2 && r[..|TreeKind|] == TreeKind
  {
    Frame(TreeKind, TreeBody(es))
  }

  /** The names of the entries, in order. */
  function Names(es: seq<TreeEntry>): (ns: seq<seq<byte>>)
    ensures |ns| == |es| && forall i :: 0 <= i < |es| ==> ns[i] == es[i].name
  {
    if es == [] then [] else [es[0].name] + Names(es[1..])
  }

  lemma {:induction false} TreeBodySnoc(es: seq<TreeEntry>, e: TreeEntry)
    requires ShasValid(es) && IsValidHexSha(e.sha)
    ensures ShasValid(es + [e]) && TreeBody(es + [e]) == TreeBody(es) + EntryBytes(e)
    decreases |es|
  {
    if es == [] {
      assert [e][1..] == [];
    } else {
      assert (es + [e])[1..] == es[1..] + [e];
      TreeBodySnoc(es[1..], e);
      assert TreeBody(es + [e]) == EntryBytes(es[0]) + (TreeBody(es[1..]) + EntryBytes(e));
      AppendAssoc(EntryBytes(es[0]), TreeBody(es[1..]), EntryBytes(e));
    }
  }

  /** Appending a record piece by piece appends `EntryBytes(e)`. */
  lemma EntryAppended(before: seq<byte>, e: TreeEntry, after: seq<byte>)
    requires IsValidHexSha(e.sha)
    requires after == before + ModeBytes(e.mode) + [SPACE] + e.name + [NUL] + DigestBytes(e.sha)
    ensures after == before + EntryBytes(e)
  {
  }

  /** The body-building loop of `write_tree_for_dir`: appends each record, decoding
      its digest with `hex_to_20_bytes`, and fails on the first malformed digest. */
  method EncodeTreeBody(entries: seq<TreeEntry>) returns (r: Result<seq<byte>>)
    ensures ShasValid(entries) ==> r == Ok(TreeBody(entries))
    ensures !ShasValid(entries) ==> r == Err(InvalidObjectHash)
  {
    var body: seq<byte> := [];
    for k := 0 to |entries|
      invariant ShasValid(entries[..k])
      invariant body == TreeBody(entries[..k])
    {
      var e := entries[k];
      ghost var before := body;
      body := body + ModeBytes(e.mode);
      body := body + [SPACE];
      body := body + e.name;
      body := body + [NUL];
      var sha20 := HexTo20Bytes(e.sha);
      if sha20.Err? {
        return Err(sha20.error);
      }
      body := body + sha20.value;
      EntryAppended(before, e, body);
      TreeBodySnoc(entries[..k], e);
      TakeOneMore(entries, k);
    }
    assert entries[..|entries|] == entries;
    return Ok(body);
  }
}
