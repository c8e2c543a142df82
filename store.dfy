/** The object database: where an object lives, the write-if-absent rule, and
    writing blobs. The SHA-1 hash and the zlib codec are parameters of the store. */
module Store {
  import opened Results
  import opened Bytes
  import opened Hex
  import opened Framing

  /** A raw SHA-1 digest. */
  type Digest = d: seq<byte> | |d| == 20 witness seq(20, _ => 0)

  /** `<first two digest characters>/<remaining characters>` under `.git/objects`. */
  datatype ObjectPath = ObjectPath(dir: string, file: string)

  /** `object_path_from_sha`: the digest split after its second character. */
  function ObjectPathFromSha(sha: string): (p: ObjectPath)
    requires |sha| >= 2
    ensures |p.dir| == 2 && |p.file| == |sha| - 2 && p.dir + p.file == sha
  {
    ObjectPath(sha[..2], sha[2..])
  }

  /** Distinct digests never share an object file. */
  lemma ObjectPathInjective(a: string, b: string)
    requires |a| >= 2 && |b| >= 2
    requires ObjectPathFromSha(a) == ObjectPathFromSha(b)
    ensures a == b
  {
    var p := ObjectPathFromSha(a);
    assert a == p.dir + p.file;
  }

  /** `sha1_hex`: the digest printed with `{:x}`, two lowercase digits per byte. */
  function Sha1Hex(sha1: seq<byte> -> Digest, data: seq<byte>): (s: string)
    ensures IsLowerHexSha(s) && IsValidHexSha(s)
    ensures DigestBytes(s) == sha1(data)
  {
    HexDecodeEncode(sha1(data));
    EncodeHex(sha1(data))
  }

  /** The object files after writing `data` at `path` unless a file is already there. */
  function PutIfAbsent(files: map<ObjectPath, seq<byte>>, path: ObjectPath, data: seq<byte>)
    : (r: map<ObjectPath, seq<byte>>)
    ensures r.Keys == files.Keys + {path}
    ensures forall p :: p in files ==> r[p] == files[p]
    ensures path !in files ==> r[path] == data
  {
    if path in files then files else files[path := data]
  }

  /** The object files after storing the object `obj` under its own digest: the
      object's path is added and no file that was there changes. */
  function StoreObject(sha1: seq<byte> -> Digest, compress: seq<byte> -> seq<byte>,
                       files: map<ObjectPath, seq<byte>>, obj: seq<byte>): (r: map<ObjectPath, seq<byte>>)
    ensures r.Keys == files.Keys + {PathOf(sha1, obj)}
    ensures forall p :: p in files ==> r[p] == files[p]
  {
    PutIfAbsent(files, ObjectPathFromSha(Sha1Hex(sha1, obj)), compress(obj))
  }

  /** The path an object is stored at. */
  function PathOf(sha1: seq<byte> -> Digest, obj: seq<byte>): ObjectPath {
    ObjectPathFromSha(Sha1Hex(sha1, obj))
  }

  /** The paths of the objects in `objs`. */
  function Paths(sha1: seq<byte> -> Digest, objs: seq<seq<byte>>): set<ObjectPath>
    decreases |objs|
  {
    if objs == [] then {} else {PathOf(sha1, objs[0])} + Paths(sha1, objs[1..])
  }

  /** The object files after storing each of `objs` in turn: the files that were
      there plus one path for each object written. */
  function StoreAll(sha1: seq<byte> -> Digest, compress: seq<byte> -> seq<byte>,
                    files: map<ObjectPath, seq<byte>>, objs: seq<seq<byte>>): (r: map<ObjectPath, seq<byte>>)
    ensures r.Keys == files.Keys + Paths(sha1, objs)
    decreases |objs|
  {
    if objs == [] then files
    else StoreAll(sha1, compress, StoreObject(sha1, compress, files, objs[0]), objs[1..])
  }

  /** Storing a single object is `StoreObject`. */
  lemma StoreAllSingle(sha1: seq<byte> -> Digest, compress: seq<byte> -> seq<byte>,
                       files: map<ObjectPath, seq<byte>>, obj: seq<byte>)
    ensures StoreAll(sha1, compress, files, [obj]) == StoreObject(sha1, compress, files, obj)
  {
    assert [obj][1..] == [];
  }

  /** Storing never overwrites or removes a file. */
  lemma {:induction false} StoreAllKeeps(sha1: seq<byte> -> Digest, compress: seq<byte> -> seq<byte>,
                                         files: map<ObjectPath, seq<byte>>, objs: seq<seq<byte>>)
    ensures forall p :: p in files ==> p in StoreAll(sha1, compress, files, objs)
    ensures forall p :: p in files ==> StoreAll(sha1, compress, files, objs)[p] == files[p]
    decreases |objs|
  {
    if objs != [] {
      StoreAllKeeps(sha1, compress, StoreObject(sha1, compress, files, objs[0]), objs[1..]);
    }
  }

  /** After storing, every object stored has a file at its path. */
  lemma {:induction false} StoreAllHolds(sha1: seq<byte> -> Digest, compress: seq<byte> -> seq<byte>,
                                         files: map<ObjectPath, seq<byte>>, objs: seq<seq<byte>>)
    ensures forall k :: 0 <= k < |objs| ==> PathOf(sha1, objs[k]) in StoreAll(sha1, compress, files, objs)
    decreases |objs|
  {
    if objs != [] {
      var next := StoreObject(sha1, compress, files, objs[0]);
      StoreAllHolds(sha1, compress, next, objs[1..]);
      StoreAllKeeps(sha1, compress, next, objs[1..]);
      forall k | 0 <= k < |objs|
        ensures PathOf(sha1, objs[k]) in StoreAll(sha1, compress, files, objs)
      {
        if k > 0 {
          assert objs[k] == objs[1..][k - 1];
        }
      }
    }
  }

  /** Storing one list of objects and then another is storing their concatenation. */
  lemma {:induction false} StoreAllAppend(sha1: seq<byte> -> Digest, compress: seq<byte> -> seq<byte>,
                                          files: map<ObjectPath, seq<byte>>, a: seq<seq<byte>>, b: seq<seq<byte>>)
    ensures StoreAll(sha1, compress, files, a + b) == StoreAll(sha1, compress, StoreAll(sha1, compress, files, a), b)
    decreases |a|
  {
    if a != [] {
      var next := StoreObject(sha1, compress, files, a[0]);
      assert (a + b)[0] == a[0] && (a + b)[1..] == a[1..] + b;
      assert StoreAll(sha1, compress, files, a + b) == StoreAll(sha1, compress, next, a[1..] + b);
      assert StoreAll(sha1, compress, files, a) == StoreAll(sha1, compress, next, a[1..]);
      StoreAllAppend(sha1, compress, next, a[1..], b);
    } else {
      assert a + b == b;
    }
  }

  /** Storing objects that are all present already changes nothing. */
  lemma {:induction false} StoreAllPresent(sha1: seq<byte> -> Digest, compress: seq<byte> -> seq<byte>,
                                           files: map<ObjectPath, seq<byte>>, objs: seq<seq<byte>>)
    requires forall k :: 0 <= k < |objs| ==> PathOf(sha1, objs[k]) in files
    ensures StoreAll(sha1, compress, files, objs) == files
    decreases |objs|
  {
    if objs != [] {
      assert StoreObject(sha1, compress, files, objs[0]) == files;
      StoreAllPresent(sha1, compress, files, objs[1..]);
    }
  }

  /** Writing the same objects a second time leaves the object files as they were. */
  lemma StoreAllIdempotent(sha1: seq<byte> -> Digest, compress: seq<byte> -> seq<byte>,
                           files: map<ObjectPath, seq<byte>>, objs: seq<seq<byte>>)
    ensures var once := StoreAll(sha1, compress, files, objs);
      StoreAll(sha1, compress, once, objs) == once
  {
    StoreAllHolds(sha1, compress, files, objs);
    StoreAllPresent(sha1, compress, StoreAll(sha1, compress, files, objs), objs);
  }

  /** Objects stored at the same path have the same SHA-1 digest. */
  lemma PathOfSameDigest(sha1: seq<byte> -> Digest, x: seq<byte>, y: seq<byte>)
    requires PathOf(sha1, x) == PathOf(sha1, y)
    ensures sha1(x) == sha1(y)
  {
    ObjectPathInjective(Sha1Hex(sha1, x), Sha1Hex(sha1, y));
  }

  /** No two distinct objects of `pool` share a SHA-1 digest. */
  predicate CollisionFree(sha1: seq<byte> -> Digest, pool: set<seq<byte>>) {
    forall x, y :: x in pool && y in pool && sha1(x) == sha1(y) ==> x == y
  }

  /** Every object file holds the compressed bytes of an object of `pool`
      stored under that object's own path. */
  ghost predicate StoredFrom(sha1: seq<byte> -> Digest, compress: seq<byte> -> seq<byte>,
                             files: map<ObjectPath, seq<byte>>, pool: set<seq<byte>>)
  {
    forall p :: p in files ==> exists x :: x in pool && files[p] == compress(x) && PathOf(sha1, x) == p
  }

  /** Storing objects of the pool keeps every file an object of the pool. */
  lemma {:induction false} StoreAllStoredFrom(sha1: seq<byte> -> Digest, compress: seq<byte> -> seq<byte>,
                                              files: map<ObjectPath, seq<byte>>, objs: seq<seq<byte>>,
                                              pool: set<seq<byte>>)
    requires StoredFrom(sha1, compress, files, pool)
    requires forall k :: 0 <= k < |objs| ==> objs[k] in pool
    ensures StoredFrom(sha1, compress, StoreAll(sha1, compress, files, objs), pool)
    decreases |objs|
  {
    if objs != [] {
      var next := StoreObject(sha1, compress, files, objs[0]);
      forall p | p in next
        ensures exists x :: x in pool && next[p] == compress(x) && PathOf(sha1, x) == p
      {
        if p !in files {
          assert objs[0] in pool && next[p] == compress(objs[0]) && PathOf(sha1, objs[0]) == p;
        }
      }
      StoreAllStoredFrom(sha1, compress, next, objs[1..], pool);
    }
  }

  /** Without collisions in the pool, the file at an object's path holds that
      object: a later write of the same object, skipped because the file exists,
      loses nothing. */
  lemma StoredAt(sha1: seq<byte> -> Digest, compress: seq<byte> -> seq<byte>,
                 files: map<ObjectPath, seq<byte>>, pool: set<seq<byte>>, obj: seq<byte>)
    requires StoredFrom(sha1, compress, files, pool) && CollisionFree(sha1, pool)
    requires obj in pool && PathOf(sha1, obj) in files
    ensures files[PathOf(sha1, obj)] == compress(obj)
  {
    var x :| x in pool && files[PathOf(sha1, obj)] == compress(x) && PathOf(sha1, x) == PathOf(sha1, obj);
    PathOfSameDigest(sha1, x, obj);
  }

  /** The object database under `.git/objects`: files by path, with the hash and
      the codec the program links against. */
  class ObjectStore {
    var files: map<ObjectPath, seq<byte>>
    const sha1: seq<byte> -> Digest
    const compress: seq<byte> -> seq<byte>
    const decompress: seq<byte> -> Option<seq<byte>>

    constructor (files: map<ObjectPath, seq<byte>>, sha1: seq<byte> -> Digest,
                 compress: seq<byte> -> seq<byte>, decompress: seq<byte> -> Option<seq<byte>>)
      ensures this.files == files && this.sha1 == sha1
      ensures this.compress == compress && this.decompress == decompress
    {
      this.files := files;
      this.sha1 := sha1;
      this.compress := compress;
      this.decompress := decompress;
    }

    /** `compress_and_write_object`: writes the compressed object at the digest's
        path only when no file is there yet. */
    method CompressAndWriteObject(obj: seq<byte>, sha: string)
      requires |sha| >= 2
      modifies this
      ensures files == PutIfAbsent(old(files), ObjectPathFromSha(sha), compress(obj))
    {
      var path := ObjectPathFromSha(sha);
      if path in files {
        return;
      }
      var compressed := compress(obj);
      files := files[path := compressed];
    }
  }

  /** `write_blob_from_bytes`: frames the content as a blob, hashes the framed
      bytes and stores them under that digest. */
  method WriteBlobFromBytes(store: ObjectStore, content: seq<byte>) returns (sha: string)
    modifies store
    ensures sha == Sha1Hex(store.sha1, BlobObject(content)) && IsLowerHexSha(sha)
    ensures store.files == StoreObject(store.sha1, store.compress, old(store.files), BlobObject(content))
  {
    var header := Header(BlobKind, |content|);
    var obj := header + content;
    sha := Sha1Hex(store.sha1, obj);
    store.CompressAndWriteObject(obj, sha);
  }
}
