/** `commit-tree`: the commit text with its fixed identity and timestamp, the
    inverse reading of that text, and writing the framed commit to the store. */
module Commit {
  import opened Results
  import opened Bytes
  import opened Hex
  import opened Framing
  import opened Store

  const TreeLabel: seq<byte> := [116, 114, 101, 101, 32]                           // "tree "
  const ParentLabel: seq<byte> := [112, 97, 114, 101, 110, 116, 32]                // "parent "
  const AuthorLabel: seq<byte> := [97, 117, 116, 104, 111, 114, 32]                // "author "
  const CommitterLabel: seq<byte> := [99, 111, 109, 109, 105, 116, 116, 101, 114, 32] // "committer "
  const Name: seq<byte> := [74, 111, 104, 110, 32, 68, 111, 101]                   // "John Doe"
  const Email: seq<byte> := [106, 111, 104, 110, 64, 101, 120, 97, 109, 112, 108, 101, 46, 99, 111, 109] // "john@example.com"
  const Timestamp: seq<byte> := [49, 50, 51, 52, 53, 54, 55, 56, 57, 48, 32, 43, 48, 48, 48, 48] // "1234567890 +0000"
  const LessThan: byte := 60
  const GreaterThan: byte := 62

  /** `<role>John Doe <john@example.com> 1234567890 +0000\n`. */
  function Signature(role: seq<byte>): seq<byte> {
    role + Name + [SPACE, LessThan] + Email + [GreaterThan, SPACE] + Timestamp + [NEWLINE]
  }

  /** Appending a signature piece by piece appends `Signature(role)`. */
  lemma SignatureAppended(before: seq<byte>, role: seq<byte>, after: seq<byte>)
    requires after == before + role + Name + [SPACE] + [LessThan] + Email + [GreaterThan] + [SPACE] + Timestamp + [NEWLINE]
    ensures after == before + Signature(role)
  {
  }

  /** The fixed lines between the parent line and the message: author, committer
      and the blank line. */
  function Signatures(): seq<byte> {
    Signature(AuthorLabel) + Signature(CommitterLabel) + [NEWLINE]
  }

  /** Where the message starts in a commit text. */
  const MessageStart: nat := 202

  /** The commit text over the bytes of the two digests: it starts with the tree
      line, ends with a newline, and holds 123 bytes besides its three parts. */
  function CommitText(tree: seq<byte>, parent: seq<byte>, message: seq<byte>): (r: seq<byte>)
    ensures |r| == |tree| + |parent| + |message| + 123
    ensures r[..5] == TreeLabel && r[|r| - 1] == NEWLINE
  {
    TreeLabel + tree + [NEWLINE] + ParentLabel + parent + [NEWLINE] + Signatures() + message + [NEWLINE]
  }

  /** The commit text `write_commit_object` builds; the message is taken as its
      UTF-8 bytes. The digests sit at fixed offsets and the message starts at
      byte 202. */
  function CommitPayload(tree: string, parent: string, message: seq<byte>): (r: seq<byte>)
    requires IsValidHexSha(tree) && IsValidHexSha(parent)
    ensures |r| == MessageStart + |message| + 1
    ensures r[5..45] == Ascii(tree) && r[53..93] == Ascii(parent) && r[MessageStart..|r| - 1] == message
  {
    CommitText(Ascii(tree), Ascii(parent), message)
  }

  /** The framed commit object that is hashed and stored: a `commit` header,
      then the commit text, which ends in a newline. */
  function CommitObject(tree: string, parent: string, message: seq<byte>): (r: seq<byte>)
    requires IsValidHexSha(tree) && IsValidHexSha(parent)
    ensures |r| > MessageStart + |message| + |CommitKind| + 3
    ensures r[..|CommitKind|] == CommitKind && r[|r| - 1] == NEWLINE
  {
    Frame(CommitKind, CommitPayload(tree, parent, message))
  }

  datatype CommitInfo = CommitInfo(tree: seq<byte>, parent: seq<byte>, message: seq<byte>)

  /** Reads a commit text back into its tree digest, parent digest and message,
      or fails when the bytes are not laid out as a commit text. */
  function ParseCommit(text: seq<byte>): (r: Option<CommitInfo>)
    ensures r.Some? ==> |r.value.tree| == 40 && |r.value.parent| == 40
    ensures r.Some? ==> CommitText(r.value.tree, r.value.parent, r.value.message) == text
  {
    if |text| > MessageStart && text[..5] == TreeLabel && text[45] == NEWLINE
       && text[46..53] == ParentLabel && text[93] == NEWLINE
       && text[94..MessageStart] == Signatures() && text[|text| - 1] == NEWLINE
    then
      var info := CommitInfo(text[5..45], text[53..93], text[MessageStart..|text| - 1]);
      CommitTextOfParts(text);
      Some(info)
    else None
  }

  /** Bytes whose fixed offsets hold the labels, the line ends and the signatures
      are the commit text of the digests and the message between them. */
  lemma CommitTextOfParts(text: seq<byte>)
    requires |text| > MessageStart && text[..5] == TreeLabel && text[45] == NEWLINE
    requires text[46..53] == ParentLabel && text[93] == NEWLINE
    requires text[94..MessageStart] == Signatures() && text[|text| - 1] == NEWLINE
    ensures CommitText(text[5..45], text[53..93], text[MessageStart..|text| - 1]) == text
  {
    var treeLine := text[..46];
    assert treeLine == TreeLabel + text[5..45] + [NEWLINE];
    var parentLine := text[46..94];
    assert parentLine == ParentLabel + text[53..93] + [NEWLINE];
    assert text[..94] == treeLine + parentLine;
    assert text == text[..94] + text[94..MessageStart] + text[MessageStart..|text| - 1] + [text[|text| - 1]];
    AppendAssoc(treeLine, ParentLabel + text[53..93], [NEWLINE]);
    AppendAssoc(treeLine, ParentLabel, text[53..93]);
  }

  /** The pieces of a commit text sit at fixed offsets. */
  lemma CommitTextSplit(tree: seq<byte>, parent: seq<byte>, message: seq<byte>)
    requires |tree| == 40 && |parent| == 40
    ensures var t := CommitText(tree, parent, message);
      && |t| == MessageStart + |message| + 1
      && t[..5] == TreeLabel && t[5..45] == tree && t[45] == NEWLINE
      && t[46..53] == ParentLabel && t[53..93] == parent && t[93] == NEWLINE
      && t[94..MessageStart] == Signatures()
      && t[MessageStart..|t| - 1] == message && t[|t| - 1] == NEWLINE
  {
    var t := CommitText(tree, parent, message);
    var head := TreeLabel + tree + [NEWLINE] + ParentLabel + parent + [NEWLINE];
    assert |Signatures()| == 108;
    assert t == head + Signatures() + message + [NEWLINE];
    assert t[..94] == head;
    assert t[94..MessageStart] == Signatures();
    assert t[MessageStart..|t| - 1] == message;
  }

  /** Round trip: reading the text `write_commit_object` builds gives back the two
      digests, as bytes, and the message. */
  lemma CommitRoundTrip(tree: string, parent: string, message: seq<byte>)
    requires IsValidHexSha(tree) && IsValidHexSha(parent)
    ensures ParseCommit(CommitPayload(tree, parent, message))
         == Some(CommitInfo(Ascii(tree), Ascii(parent), message))
  {
    CommitTextSplit(Ascii(tree), Ascii(parent), message);
  }

  /** Different commits never share a text. */
  lemma CommitPayloadInjective(tree: string, parent: string, message: seq<byte>,
                               tree': string, parent': string, message': seq<byte>)
    requires IsValidHexSha(tree) && IsValidHexSha(parent)
    requires IsValidHexSha(tree') && IsValidHexSha(parent')
    requires CommitPayload(tree, parent, message) == CommitPayload(tree', parent', message')
    ensures tree == tree' && parent == parent' && message == message'
  {
    CommitRoundTrip(tree, parent, message);
    CommitRoundTrip(tree', parent', message');
    AsciiInjective(tree, tree');
    AsciiInjective(parent, parent');
  }

  /** The commit header reads `commit <length>` where the length is that of the
      text after the first NUL, which is exactly the commit text. */
  lemma CommitFraming(tree: string, parent: string, message: seq<byte>)
    requires IsValidHexSha(tree) && IsValidHexSha(parent)
    ensures var obj, text := CommitObject(tree, parent, message), CommitPayload(tree, parent, message);
      && IndexOf(obj, 0, NUL) == Some(HeaderEnd(CommitKind, text))
      && obj[..HeaderEnd(CommitKind, text)] == CommitKind + [SPACE] + Decimal(|text|)
      && DecimalValue(obj[|CommitKind| + 1..HeaderEnd(CommitKind, text)]) == |text|
      && obj[HeaderEnd(CommitKind, text) + 1..] == text
      && |text| == MessageStart + |message| + 1
  {
    var text := CommitPayload(tree, parent, message);
    KindsNulFree();
    FrameParts(CommitKind, text);
    FrameFirstNul(CommitKind, text);
    CommitTextSplit(Ascii(tree), Ascii(parent), message);
  }

  /** The commit text of `write_commit_object`, pushed line by line. */
  method BuildCommitContent(tree: string, parent: string, message: seq<byte>) returns (content: seq<byte>)
    requires IsValidHexSha(tree) && IsValidHexSha(parent)
    ensures content == CommitPayload(tree, parent, message)
  {
    content := [];
    content := content + TreeLabel;
    content := content + Ascii(tree);
    content := content + [NEWLINE];
    content := content + ParentLabel;
    content := content + Ascii(parent);
    content := content + [NEWLINE];
    ghost var lines := content;
    assert lines == TreeLabel + Ascii(tree) + [NEWLINE] + ParentLabel + Ascii(parent) + [NEWLINE];
    content := content + AuthorLabel + Name + [SPACE] + [LessThan] + Email + [GreaterThan] + [SPACE] + Timestamp;
    content := content + [NEWLINE];
    SignatureAppended(lines, AuthorLabel, content);
    ghost var authored := content;
    content := content + CommitterLabel + Name + [SPACE] + [LessThan] + Email + [GreaterThan] + [SPACE] + Timestamp;
    content := content + [NEWLINE];
    SignatureAppended(authored, CommitterLabel, content);
    content := content + [NEWLINE];
    AppendAssoc(lines, Signature(AuthorLabel), Signature(CommitterLabel));
    AppendAssoc(lines, Signature(AuthorLabel) + Signature(CommitterLabel), [NEWLINE]);
    content := content + message;
    content := content + [NEWLINE];
    assert content == lines + Signatures() + message + [NEWLINE];
    assert content == CommitText(Ascii(tree), Ascii(parent), message);
  }

  /** `write_commit_object`: rejects an invalid tree digest, then an invalid parent
      digest, without writing anything; otherwise builds the commit text line by
      line, frames it, and stores it under its digest. */
  method WriteCommitObject(store: ObjectStore, tree: string, parent: string, message: seq<byte>)
    returns (r: Result<string>)
    modifies store
    ensures !IsValidHexSha(tree) ==> r == Err(InvalidTreeSha) && store.files == old(store.files)
    ensures IsValidHexSha(tree) && !IsValidHexSha(parent) ==>
              r == Err(InvalidParentSha) && store.files == old(store.files)
    ensures IsValidHexSha(tree) && IsValidHexSha(parent) ==>
              && r == Ok(Sha1Hex(store.sha1, CommitObject(tree, parent, message)))
              && store.files == StoreObject(store.sha1, store.compress, old(store.files),
                                            CommitObject(tree, parent, message))
  {
    if !IsValidHexSha(tree) {
      return Err(InvalidTreeSha);
    }
    if !IsValidHexSha(parent) {
      return Err(InvalidParentSha);
    }
    var content := BuildCommitContent(tree, parent, message);
    var obj := Header(CommitKind, |content|) + content;
    var sha := Sha1Hex(store.sha1, obj);
    store.CompressAndWriteObject(obj, sha);
    return Ok(sha);
  }
}
