# A model of a minimal Git object store

This project models the object store of a small Git-compatible tool written in
Rust (`build-your-own-git-main/starter_templates/rust/code/src/main.rs`).
It covers four commands:

- `hash-object -w` frames a file's bytes as a blob (`blob <len>\0<content>`),
  hashes them with SHA-1 and stores them, zlib-compressed, at
  `.git/objects/<2 hex>/<38 hex>`. A file that is already there is never
  rewritten.
- `ls-tree --name-only` validates a 40-character hex digest, finds and
  decompresses the object, checks the `tree ` header and prints the name of
  every `<mode> <name>\0<20-byte digest>` record.
- `write-tree` walks the working directory and skips `.git`. It stores files
  and symbolic-link targets as blobs and subdirectories as trees. It sorts the
  entries by the bytes of their names and stores the encoded tree.
- `commit-tree` validates the tree and parent digests. It builds the commit
  text with the fixed identity `John Doe <john@example.com> 1234567890 +0000`
  and stores it as a `commit` object.

The modules follow the program's own sections:

- `Results`: `Option`, `Result` and one error per failure of the modelled
  functions.
- `Bytes`: bytes, ASCII, search for a byte (`iter().position`) and decimal
  lengths.
- `Hex`: `is_valid_hex_sha`, `hex_to_20_bytes` and the lowercase `{:x}`
  encoding of a digest.
- `Framing`: the `<kind> <len>\0` header shared by all objects.
- `Store`: object paths, `compress_and_write_object`, `sha1_hex` and
  `write_blob_from_bytes`. The object database is a class whose `files` map
  goes from path to stored bytes.
- `Entries`: tree entries, their modes, byte order of names and the stable
  sort (an in-place insertion sort on an array).
- `Tree`: record encoding and the tree body.
- `LsTree`: the `ls_tree_name_only` reader.
- `Commit`: the commit text, its inverse reading and `write_commit_object`.
- `Walker`: the directory walk of `write_tree_for_dir`.

SHA-1 and zlib are parameters of the store: `sha1: seq<byte> -> Digest`, and
`compress` and `decompress` functions, where `decompress` returns `None` for a
stream it cannot read. The file system is a value. A directory is the sequence
of its items in listing order, and each item is a directory, a file (its bytes
and whether an execute bit is set), a symbolic link (its target's bytes) or
anything else.

Points worth knowing about the code:

- The reader lists names only, and a record can fail in three distinct ways
  (missing space, missing NUL, truncated sha). Names are printed as they are
  read, so `LsTree.Listing` holds the names printed before any error, then the
  error.
- `write_tree_for_dir` sorts the collected entries itself with the stable
  `sort_by` before encoding them. `Entries.SortEntries` models that sort.
- The reader checks only that the header starts with `tree `. It does not
  compare the declared length with the payload, and neither does
  `LsTree.ListTree`.
- `is_ascii_hexdigit` accepts upper-case digits. So an upper-case digest passes
  validation in `ls-tree` and `commit-tree`, and `commit-tree` writes it into
  the commit text as given. The model keeps both behaviours; digests the
  program computes itself are always lower case (`Store.Sha1Hex`).

## Model

| member | source | states |
|---|---|---|
| Hex.HexTo20Bytes | build-your-own-git-main/starter_templates/rust/code/src/main.rs:132-142 | fails with "invalid object hash" exactly when the text is not 40 hex digits (the same test as `is_valid_hex_sha`); otherwise byte `i` is the value of hex digits `2i` and `2i+1`, and the 20 bytes are the digest's decoding |
| Hex.IsValidHexSha | build-your-own-git-main/starter_templates/rust/code/src/main.rs:144-146 | a valid digest is ASCII text, so the byte length the program tests is its character count |
| Hex.DigestBytes | build-your-own-git-main/starter_templates/rust/code/src/main.rs:136-141 | a valid digest decodes to exactly 20 bytes |
| Hex.HexDecodeAt | build-your-own-git-main/starter_templates/rust/code/src/main.rs:137-140 | byte `i` of the decoding is the pair value of characters `2i` and `2i+1` |
| Hex.HexDecodeEncode | build-your-own-git-main/starter_templates/rust/code/src/main.rs:126-130 | decoding the lowercase hex text of any byte string gives the bytes back |
| Hex.HexEncodeDecode | build-your-own-git-main/starter_templates/rust/code/src/main.rs:132-146 | encoding the decoding of even-length lowercase hex text gives the text back |
| Hex.PairEncodes | build-your-own-git-main/starter_templates/rust/code/src/main.rs:129-140 | the value of two lowercase hex digits prints back as those two digits |
| Hex.DigestRoundTrip | build-your-own-git-main/starter_templates/rust/code/src/main.rs:126-146 | a 20-byte digest and its 40-character lowercase text determine each other |
| Hex.EncodeHex | build-your-own-git-main/starter_templates/rust/code/src/main.rs:129 | `{:x}` gives two lowercase hex characters per byte |
| Hex.LowerHexDigit | build-your-own-git-main/starter_templates/rust/code/src/main.rs:129 | the lowercase digit for a value below 16 reads back as that value |
| Bytes.IndexOf | build-your-own-git-main/starter_templates/rust/code/src/main.rs:185-188 | `position` finds the first occurrence of the byte at or after the cursor, or reports that there is none |
| Bytes.SplitAt | build-your-own-git-main/starter_templates/rust/code/src/main.rs:185-188 | when a byte first occurs after a prefix without it, `position` finds it there and the bytes split around it |
| Bytes.FieldsAt | build-your-own-git-main/starter_templates/rust/code/src/main.rs:197-210 | for `<mode> <name>\0<rest>` with no space in the mode and no NUL in the name, the first space and first NUL are the field ends and the name and rest are read back |
| Bytes.Decimal | build-your-own-git-main/starter_templates/rust/code/src/main.rs:158 | a length is written as a non-empty string of digits that starts with `0` only for zero |
| Bytes.DecimalRoundTrip | build-your-own-git-main/starter_templates/rust/code/src/main.rs:158 | the decimal digits of a length read back as that length |
| Bytes.DecimalInjective | build-your-own-git-main/starter_templates/rust/code/src/main.rs:158 | different lengths give different headers |
| Bytes.AsciiInjective | build-your-own-git-main/starter_templates/rust/code/src/main.rs:338-367 | different ASCII strings have different bytes |
| Framing.FrameParts | build-your-own-git-main/starter_templates/rust/code/src/main.rs:158-161 | a framed object is the kind, a space, digits that read back as the payload length, a NUL, then exactly the payload |
| Framing.Header | build-your-own-git-main/starter_templates/rust/code/src/main.rs:158 | `<kind> <len>\0` starts with the kind and a space and ends with a NUL; for a kind without NUL that NUL is the only one |
| Framing.Frame | build-your-own-git-main/starter_templates/rust/code/src/main.rs:158-161 | a framed object starts with the kind and ends with exactly the payload, after at least three header bytes |
| Framing.FrameFirstNul | build-your-own-git-main/starter_templates/rust/code/src/main.rs:185-188 | for a kind without NUL, the first NUL of a framed object is the one that ends its header |
| Framing.KindsNulFree | build-your-own-git-main/starter_templates/rust/code/src/main.rs:158 | the kinds `blob`, `tree` and `commit` hold no NUL |
| Framing.BlobFraming | build-your-own-git-main/starter_templates/rust/code/src/main.rs:157-161 | the blob header is `blob <len>` up to the first NUL, its length reads back as the content length, and the content is everything after that NUL |
| Store.ObjectPathFromSha | build-your-own-git-main/starter_templates/rust/code/src/main.rs:95-98 | the directory is the first two characters and the file name the rest, which together give back the digest |
| Store.ObjectPathInjective | build-your-own-git-main/starter_templates/rust/code/src/main.rs:95-98 | different digests never share a path |
| Store.Sha1Hex | build-your-own-git-main/starter_templates/rust/code/src/main.rs:126-130 | the digest text is 40 lowercase hex characters and decodes to the SHA-1 of the data |
| Store.PutIfAbsent | build-your-own-git-main/starter_templates/rust/code/src/main.rs:115-122 | the new path is added, no existing file changes, and an absent path receives the data |
| Store.ObjectStore.CompressAndWriteObject | build-your-own-git-main/starter_templates/rust/code/src/main.rs:108-124 | writes the compressed object at the digest's path only when no file is there |
| Store.WriteBlobFromBytes | build-your-own-git-main/starter_templates/rust/code/src/main.rs:157-166 | returns the lowercase SHA-1 text of `blob <len>\0<content>` and stores exactly that object |
| Store.StoreAllKeeps | build-your-own-git-main/starter_templates/rust/code/src/main.rs:115-117 | a sequence of writes never removes or overwrites a file |
| Store.StoreObject | build-your-own-git-main/starter_templates/rust/code/src/main.rs:163-164 | storing an object adds exactly its own path and changes no file that was there |
| Store.StoreAll | build-your-own-git-main/starter_templates/rust/code/src/main.rs:108-124 | after a sequence of writes the files are the old ones plus exactly one path per written object |
| Store.StoreAllHolds | build-your-own-git-main/starter_templates/rust/code/src/main.rs:108-124 | after a sequence of writes every written object has a file at its path |
| Store.StoreAllAppend | build-your-own-git-main/starter_templates/rust/code/src/main.rs:108-124 | writing `a` then `b` is writing `a + b` |
| Store.StoreAllSingle | build-your-own-git-main/starter_templates/rust/code/src/main.rs:108-124 | writing a one-object sequence is writing that object |
| Store.StoreAllPresent | build-your-own-git-main/starter_templates/rust/code/src/main.rs:115-117 | writes whose files already exist change nothing |
| Store.StoreAllIdempotent | build-your-own-git-main/starter_templates/rust/code/src/main.rs:115-117 | writing the same objects twice leaves the same files as writing them once |
| Store.PathOfSameDigest | build-your-own-git-main/starter_templates/rust/code/src/main.rs:95-98 | objects at the same path have the same SHA-1 digest |
| Store.StoreAllStoredFrom | build-your-own-git-main/starter_templates/rust/code/src/main.rs:108-124 | when only objects of a pool are written, every file holds a compressed pool object at that object's own path |
| Store.StoredAt | build-your-own-git-main/starter_templates/rust/code/src/main.rs:115-117 | without SHA-1 collisions in the pool, the file at an object's path holds that object, even when a later write was skipped |
| Entries.ModeBytes | build-your-own-git-main/starter_templates/rust/code/src/main.rs:232 | each mode is a string of at least five digits |
| Entries.NameLeTotal | build-your-own-git-main/starter_templates/rust/code/src/main.rs:280 | any two names are comparable in byte order |
| Entries.NameLe | build-your-own-git-main/starter_templates/rust/code/src/main.rs:280 | a name sorts no later than any name it is a prefix of, and strictly after any proper prefix of it |
| Entries.NameLeFirstDifference | build-your-own-git-main/starter_templates/rust/code/src/main.rs:280 | where two names first differ, the smaller byte decides the order |
| Entries.NameLeTransitive | build-your-own-git-main/starter_templates/rust/code/src/main.rs:280 | byte order is transitive |
| Entries.NameLeAntisymmetric | build-your-own-git-main/starter_templates/rust/code/src/main.rs:280 | names that are each at most the other are equal |
| Entries.NameOrderExample | build-your-own-git-main/starter_templates/rust/code/src/main.rs:280 | `a` sorts before `ab`, which sorts before `b` |
| Entries.InsertByNamePermutes | build-your-own-git-main/starter_templates/rust/code/src/main.rs:280 | one insertion step adds exactly the inserted entry |
| Entries.InsertByName | build-your-own-git-main/starter_templates/rust/code/src/main.rs:280 | one insertion step gives a sequence one longer that holds the inserted entry |
| Entries.InsertByNameSorted | build-your-own-git-main/starter_templates/rust/code/src/main.rs:280 | inserting into a sorted sequence keeps it sorted |
| Entries.SortByNameCorrect | build-your-own-git-main/starter_templates/rust/code/src/main.rs:280 | the sort yields a permutation of its input in byte order of the names |
| Entries.SortByName | build-your-own-git-main/starter_templates/rust/code/src/main.rs:280 | the stable sort keeps the number of entries |
| Entries.SortByNameKeepsShas | build-your-own-git-main/starter_templates/rust/code/src/main.rs:280-290 | sorting keeps every digest valid |
| Entries.SortByNameKeepsNames | build-your-own-git-main/starter_templates/rust/code/src/main.rs:280-288 | sorting keeps every name free of NUL |
| Entries.SortEntries | build-your-own-git-main/starter_templates/rust/code/src/main.rs:280 | the in-place sort leaves the array equal to the stable sort of its old contents |
| Entries.InsertAt | build-your-own-git-main/starter_templates/rust/code/src/main.rs:280 | one pass moves the entry at `i` back past the earlier entries whose names are larger, and keeps later entries |
| Entries.InsertByNameAt | build-your-own-git-main/starter_templates/rust/code/src/main.rs:280 | inserting an entry at the place after the last name not above it and before the first name above it puts it exactly there |
| Tree.EncodeTreeBody | build-your-own-git-main/starter_templates/rust/code/src/main.rs:283-292 | with valid digests the body is the concatenation of the records `<mode> <name>\0<20 bytes>`; otherwise "invalid object hash" |
| Tree.EntryBytes | build-your-own-git-main/starter_templates/rust/code/src/main.rs:285-291 | a record is 22 bytes longer than its mode and name, and ends with the 20 digest bytes |
| Tree.TreeBody | build-your-own-git-main/starter_templates/rust/code/src/main.rs:283-292 | every record takes at least 27 bytes (a mode of five digits or more, a space, a NUL and 20 digest bytes) |
| Tree.TreeObject | build-your-own-git-main/starter_templates/rust/code/src/main.rs:294-298 | a tree object starts with `tree` and is longer than 27 bytes per entry plus its header |
| Tree.Names | build-your-own-git-main/starter_templates/rust/code/src/main.rs:217-218 | one name per entry, entry `i`'s name at position `i` |
| Tree.TreeBodySnoc | build-your-own-git-main/starter_templates/rust/code/src/main.rs:284-292 | appending an entry appends its record to the body |
| LsTree.NamesFrom | build-your-own-git-main/starter_templates/rust/code/src/main.rs:197-219 | the reader prints at most one name for every 22 bytes it reads |
| LsTree.RecordAt | build-your-own-git-main/starter_templates/rust/code/src/main.rs:197-215 | reading one record either stops with one of the three record errors or moves the cursor forward by at least 22 bytes, staying inside the object |
| LsTree.ReadRecord | build-your-own-git-main/starter_templates/rust/code/src/main.rs:197-215 | the record reading with `position` and cursor arithmetic gives the specified record or error |
| LsTree.RecordAtFound | build-your-own-git-main/starter_templates/rust/code/src/main.rs:199-215 | when the space and the NUL are found and 20 digest bytes follow, the record is the bytes between them and the cursor moves past the digest |
| LsTree.NamesFromRecord | build-your-own-git-main/starter_templates/rust/code/src/main.rs:197-219 | a record that is read contributes its name, followed by what the bytes after it yield |
| LsTree.ListTree | build-your-own-git-main/starter_templates/rust/code/src/main.rs:184-219 | at most one name for every 22 bytes of the object |
| LsTree.ParseRecords | build-your-own-git-main/starter_templates/rust/code/src/main.rs:194-219 | the cursor loop prints the names and stops with the error that the record reading specifies |
| LsTree.ParseTreeNames | build-your-own-git-main/starter_templates/rust/code/src/main.rs:184-219 | the header checks followed by the record loop give the specified listing |
| LsTree.LsTreeNameOnly | build-your-own-git-main/starter_templates/rust/code/src/main.rs:172-223 | an invalid digest fails before any lookup; a missing file gives "object not found"; a stream that does not decompress gives a corrupt-object error; otherwise the listing of the decompressed object |
| LsTree.NamesFromBody | build-your-own-git-main/starter_templates/rust/code/src/main.rs:197-219 | reading well-formed records yields their names in order, then whatever the bytes after them yield |
| LsTree.TreeWithSuffix | build-your-own-git-main/starter_templates/rust/code/src/main.rs:184-219 | a tree of well-formed records followed by other bytes lists the records' names first |
| LsTree.ListTreeRoundTrip | build-your-own-git-main/starter_templates/rust/code/src/main.rs:184-219 | listing an encoded tree whose names hold no NUL gives the entries' names in order and no error |
| LsTree.ListTreeTruncated | build-your-own-git-main/starter_templates/rust/code/src/main.rs:212-214 | a last record with fewer than 20 digest bytes prints the earlier names, then fails with "truncated sha" |
| LsTree.CutRecord | build-your-own-git-main/starter_templates/rust/code/src/main.rs:212-214 | a record whose digest is cut short stops the reader with "truncated sha" |
| LsTree.ListTreeMissingSpace | build-your-own-git-main/starter_templates/rust/code/src/main.rs:199-202 | trailing bytes without a space print the earlier names, then fail with "missing space" |
| LsTree.SpacelessTail | build-your-own-git-main/starter_templates/rust/code/src/main.rs:199-202 | bytes without a space stop the reader with "missing space" |
| LsTree.ListTreeMissingNul | build-your-own-git-main/starter_templates/rust/code/src/main.rs:205-208 | a last name without a closing NUL prints the earlier names, then fails with "missing NUL" |
| LsTree.UnterminatedRecord | build-your-own-git-main/starter_templates/rust/code/src/main.rs:205-208 | a record without a NUL after its name stops the reader with "missing NUL" |
| LsTree.ListTreeNoHeader | build-your-own-git-main/starter_templates/rust/code/src/main.rs:185-188 | an object without NUL fails with "missing header NUL" |
| LsTree.ListTreeRejectsBlob | build-your-own-git-main/starter_templates/rust/code/src/main.rs:189-192 | a blob fails with "object is not a tree" |
| LsTree.HeaderAccepted | build-your-own-git-main/starter_templates/rust/code/src/main.rs:185-194 | when the first NUL ends a header starting with `tree `, the records are read from just after it |
| LsTree.RecordStep | build-your-own-git-main/starter_templates/rust/code/src/main.rs:197-218 | one encoded record contributes its name and moves the cursor past its digest |
| Commit.ParseCommit | build-your-own-git-main/starter_templates/rust/code/src/main.rs:338-365 | an accepted text is exactly the commit text of the tree, parent and message it returns |
| Commit.CommitText | build-your-own-git-main/starter_templates/rust/code/src/main.rs:338-365 | the text starts with `tree `, ends with a newline and holds 123 bytes besides the two digests and the message |
| Commit.CommitPayload | build-your-own-git-main/starter_templates/rust/code/src/main.rs:338-367 | the tree digest sits at bytes 5-44, the parent digest at bytes 53-92, the message from byte 202, and a newline ends the text |
| Commit.CommitObject | build-your-own-git-main/starter_templates/rust/code/src/main.rs:367-373 | the stored object starts with `commit`, ends with the text's final newline and is longer than header and text together require |
| Commit.CommitTextSplit | build-your-own-git-main/starter_templates/rust/code/src/main.rs:338-365 | the tree line, parent line, author and committer lines, blank line and message sit at fixed offsets, and the text ends in a newline |
| Commit.CommitTextOfParts | build-your-own-git-main/starter_templates/rust/code/src/main.rs:338-365 | a text with the labels, newlines and signature lines at their fixed offsets is the commit text of its own tree, parent and message fields |
| Commit.CommitRoundTrip | build-your-own-git-main/starter_templates/rust/code/src/main.rs:338-365 | reading a commit text gives back the tree digest, the parent digest and the message |
| Commit.CommitPayloadInjective | build-your-own-git-main/starter_templates/rust/code/src/main.rs:338-365 | different tree, parent or message give different commit texts |
| Commit.CommitFraming | build-your-own-git-main/starter_templates/rust/code/src/main.rs:367-373 | the header length is the length of the commit text after the first NUL, which is 203 bytes plus the message |
| Commit.BuildCommitContent | build-your-own-git-main/starter_templates/rust/code/src/main.rs:332-365 | the lines pushed one by one form the commit text |
| Commit.WriteCommitObject | build-your-own-git-main/starter_templates/rust/code/src/main.rs:320-378 | an invalid tree digest, then an invalid parent digest, fails without writing; otherwise returns the SHA-1 text of the framed commit and stores exactly that object |
| Walker.DirEntries | build-your-own-git-main/starter_templates/rust/code/src/main.rs:239-277 | every collected entry carries a valid digest |
| Walker.DirTreeObject | build-your-own-git-main/starter_templates/rust/code/src/main.rs:279-298 | a directory's tree starts with `tree` and takes more than 27 bytes per collected entry |
| Walker.DirDigest | build-your-own-git-main/starter_templates/rust/code/src/main.rs:300-302 | the returned digest is 40 lowercase hex digits, valid for the parent's entry |
| Walker.ItemWrites | build-your-own-git-main/starter_templates/rust/code/src/main.rs:239-277 | the walk stores at least one object for every entry it collects |
| Walker.DirWrites | build-your-own-git-main/starter_templates/rust/code/src/main.rs:239-302 | the directory's own tree is stored last, after at least one object per entry |
| Walker.DirEntriesNames | build-your-own-git-main/starter_templates/rust/code/src/main.rs:243-246 | no entry is named `.git`, and no name holds a NUL |
| Walker.DirEntriesPrefix | build-your-own-git-main/starter_templates/rust/code/src/main.rs:239-277 | the entries and writes for the first items do not depend on the items listed after them |
| Walker.GitDirIgnored | build-your-own-git-main/starter_templates/rust/code/src/main.rs:243-246 | a `.git` item listed anywhere, whatever it holds, changes neither the directory's digest nor what the walk stores |
| Walker.GitDirSkipped | build-your-own-git-main/starter_templates/rust/code/src/main.rs:243-246 | past a `.git` item, the entries and writes are those of the same listing without it |
| Walker.SameItemStep | build-your-own-git-main/starter_templates/rust/code/src/main.rs:239-277 | two walks that agree so far and list the same next item still agree after it |
| Walker.SameWalkSameTree | build-your-own-git-main/starter_templates/rust/code/src/main.rs:279-302 | walks that collect the same entries and store the same objects give the same tree digest and the same writes |
| Walker.SingleFileTree | build-your-own-git-main/starter_templates/rust/code/src/main.rs:258-265 | a directory holding only the regular file `foo.txt` has the single record `100644 foo.txt\0<blob digest>` |
| Walker.TreeStoredAtDigest | build-your-own-git-main/starter_templates/rust/code/src/main.rs:300-302 | after the walk the tree is stored at the path of the returned digest |
| Walker.WriteTreeThenList | build-your-own-git-main/starter_templates/rust/code/src/main.rs:172-303 | without collisions and with a codec that round-trips, listing the returned digest gives the item names in byte order, without `.git` and without error |
| Walker.DirTreeListing | build-your-own-git-main/starter_templates/rust/code/src/main.rs:279-302 | the tree built for a directory lists, without error, the names of its entries, which are in byte order and never `.git` |
| Walker.WriteTreeForDir | build-your-own-git-main/starter_templates/rust/code/src/main.rs:236-303 | returns the digest of the sorted, encoded tree and stores every blob and subtree below the directory in listing order, then the tree |
| Walker.WriteItem | build-your-own-git-main/starter_templates/rust/code/src/main.rs:240-276 | one listed item: `.git` and special files are skipped; a subdirectory is walked recursively (mode `40000`); a file becomes a blob (`100755` when executable, else `100644`); a symlink target becomes a blob (`120000`) |
| Walker.ItemStep | build-your-own-git-main/starter_templates/rust/code/src/main.rs:240-276 | one more item adds no entry and no write for `.git` or a special file, one tree entry after its subtree's writes for a directory, and one blob entry and write for a file or symlink |
| Walker.WriteTreeObject | build-your-own-git-main/starter_templates/rust/code/src/main.rs:279-302 | sorts, encodes and stores the tree and returns its digest |

## Left out

- SHA-1 and zlib are not implemented. They are parameters of the store. The
  codec law `decompress(compress(x)) == x` is a precondition of
  `Walker.WriteTreeThenList`, not an assumption about every codec.
- Collision freedom cannot hold for all inputs, so it is required only of the
  objects a lemma is about (`Store.CollisionFree`).
- The real file system is left out: `create_dir_all`, reading and writing
  files, `is_file`, `read_dir`, `symlink_metadata` and `read_link`, and every
  I/O error they can raise. The store is a map from path to bytes, and a
  directory is a value listed in a given order.
- `is_executable` is left out: permission bits are reduced to the
  `executable` flag of a file.
- `to_string_lossy` is left out: names and link targets are taken as bytes,
  with no replacement of invalid UTF-8.
- `Commit.WriteCommitObject`: the message is taken as its UTF-8 bytes.
  Encoding a `&str` to UTF-8 is not modelled.
- The command line (`main`, `run`, flag parsing), `ensure_git_dir` and writing
  to stdout are left out. `LsTree.LsTreeNameOnly` returns the printed names as a
  sequence instead of writing them.
- `write_blob_from_file` is left out: the walk passes a file's bytes straight
  to `Store.WriteBlobFromBytes`.
- `Hex.HexTo20Bytes`: the `from_str_radix` error is not modelled, because two
  validated hex digits always parse.
- `Walker.WriteTreeForDir`: the `?` after `hex_to_20_bytes` is not modelled.
  Every digest in the walk comes from `sha1_hex`, so `Tree.EncodeTreeBody`
  cannot fail there.
- `Walker.WriteTreeForDir`: the function returns a digest, not a `Result`,
  because its only failures are I/O errors.
- The model does not prove that the tree digest is independent of the order in
  which the directory is listed.
