/** The envelope every object gets before it is hashed and stored:
    `<kind> <decimal payload length>\0<payload>`. */
module Framing {
  import opened Results
  import opened Bytes

  const BlobKind: seq<byte> := [98, 108, 111, 98]              // "blob"
  const TreeKind: seq<byte> := [116, 114, 101, 101]            // "tree"
  const CommitKind: seq<byte> := [99, 111, 109, 109, 105, 116] // "commit"

  predicate NulFree(s: seq<byte>) {
    forall i :: 0 <= i < |s| ==> s[i] != NUL
  }

  /** The header `format!("<kind> {}\0", len)`. Its length field holds no NUL,
      so for a kind without NUL the only NUL is the one that ends it. */
  function Header(kind: seq<byte>, len: nat): (h: seq<byte>)
    ensures |h| > |kind| + 2 && h[..|kind|] == kind && h[|kind|] == SPACE && h[|h| - 1] == NUL
    ensures NulFree(kind) ==> NulFree(h[..|h| - 1])
  {
    kind + [SPACE] + Decimal(len) + [NUL]
  }

  /** A framed object: the header for the payload's length, then the payload,
      which is exactly what follows the header. */
  function Frame(kind: seq<byte>, payload: seq<byte>): (r: seq<byte>)
    ensures |r| > |kind| + |payload| + 2
    ensures r[..|kind|] == kind && r[|r| - |payload|..] == payload
  {
    Header(kind, |payload|) + payload
  }

  /** Where the header of a framed object ends: the index of its NUL. */
  function HeaderEnd(kind: seq<byte>, payload: seq<byte>): nat {
    |kind| + 1 + |Decimal(|payload|)|
  }

  /** A framed object holds, in order, the kind, a space, a decimal length that
      reads back as the payload length, a NUL, and the payload. */
  lemma FrameParts(kind: seq<byte>, payload: seq<byte>)
    ensures var obj, h := Frame(kind, payload), HeaderEnd(kind, payload);
      && |obj| == h + 1 + |payload|
      && obj[..h] == kind + [SPACE] + Decimal(|payload|)
      && obj[h] == NUL
      && AllDigits(obj[|kind| + 1..h]) && DecimalValue(obj[|kind| + 1..h]) == |payload|
      && obj[h + 1..] == payload
  {
    var obj, h := Frame(kind, payload), HeaderEnd(kind, payload);
    var head := kind + [SPACE] + Decimal(|payload|);
    assert obj == head + [NUL] + payload;
    assert obj[..h] == head;
    assert obj[|kind| + 1..h] == Decimal(|payload|);
    DecimalRoundTrip(|payload|);
  }

  /** For a kind without NUL the first NUL of a framed object is the one that ends its header. */
  lemma FrameFirstNul(kind: seq<byte>, payload: seq<byte>)
    requires NulFree(kind)
    ensures IndexOf(Frame(kind, payload), 0, NUL) == Some(HeaderEnd(kind, payload))
  {
    var obj, h := Frame(kind, payload), HeaderEnd(kind, payload);
    var digits := Decimal(|payload|);
    FrameParts(kind, payload);
    forall j | 0 <= j < h
      ensures obj[j] != NUL
    {
      assert obj[j] == obj[..h][j];
      if j < |kind| {
        assert obj[j] == kind[j];
      } else if j > |kind| {
        assert obj[j] == digits[j - |kind| - 1];
      }
    }
    IndexOfIs(obj, 0, NUL, h);
  }

  /** The object `write_blob_from_bytes` hashes and stores for `content`. */
  function BlobObject(content: seq<byte>): seq<byte> {
    Frame(BlobKind, content)
  }

  /** No kind holds a NUL, so the first NUL of an object ends its header. */
  lemma KindsNulFree()
    ensures NulFree(BlobKind) && NulFree(TreeKind) && NulFree(CommitKind)
  {
  }

  /** The blob header reads `blob <|content|>` and the content is exactly what
      follows the first NUL. */
  lemma BlobFraming(content: seq<byte>)
    ensures IndexOf(BlobObject(content), 0, NUL) == Some(HeaderEnd(BlobKind, content))
    ensures BlobObject(content)[..HeaderEnd(BlobKind, content)] == BlobKind + [SPACE] + Decimal(|content|)
    ensures DecimalValue(BlobObject(content)[|BlobKind| + 1..HeaderEnd(BlobKind, content)]) == |content|
    ensures BlobObject(content)[HeaderEnd(BlobKind, content) + 1..] == content
  {
    KindsNulFree();
    FrameParts(BlobKind, content);
    FrameFirstNul(BlobKind, content);
  }
}
