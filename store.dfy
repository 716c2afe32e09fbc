/**
 * The object store. An object is framed as `"<fmt> <len>\0" + payload`, named by the SHA-1 of
 * the frame written as 40 lower-case hex digits, and kept zlib-compressed in the file
 * `objects/<first two digits>/<remaining digits>`, which is written only if it does not exist.
 * SHA-1 and zlib are parameters: a hasher, and a compressor whose decompression may fail.
 */
module Store {
  import opened Wrappers
  import opened Bytes
  import opened Utf8
  import opened PyStr
  import opened Objects

  /** A SHA-1 digest. */
  type Digest = s: seq<byte> | |s| == 20 witness seq(20, _ => 0 as byte)

  /** `hashlib.sha1`. */
  type Hasher = seq<byte> -> Digest

  /** `zlib.compress` and `zlib.decompress`; `decompress` is None where it raises. */
  datatype Compressor = Compressor(compress: seq<byte> -> seq<byte>, decompress: seq<byte> -> Option<seq<byte>>)

  /** What zlib guarantees: decompressing what it compressed gives the input back. */
  ghost predicate Lossless(z: Compressor)
  {
    forall x :: z.decompress(z.compress(x)) == Some(x)
  }

  /** `hashlib.sha1(full).hexdigest()`. */
  function HexDigest(h: Hasher, full: seq<byte>): (sha: string)
    ensures IsHexSha(sha)
  {
    ToHex(h(full))
  }

  /* ---------------- object paths ---------------- */

  /** The object file `objects/<dir>/<file>`. */
  datatype ObjPath = ObjPath(dir: string, file: string)

  /** The file named by `sha`: `sha[:2]` and `sha[2:]`, which put together give `sha` back. */
  function PathOf(sha: string): (p: ObjPath)
    ensures p.dir + p.file == sha
    ensures |sha| >= 2 ==> |p.dir| == 2
  {
    ObjPath(Slice(sha, 0, 2), Slice(sha, 2, |sha|))
  }

  /** The object directory: the compressed contents of each object file. */
  type ObjectMap = map<ObjPath, seq<byte>>

  /** Writing `content` at `p` unless a file is already there: nothing is ever overwritten. */
  function Put(store: ObjectMap, p: ObjPath, content: seq<byte>): (r: ObjectMap)
    ensures r.Keys == store.Keys + {p}
    ensures forall q :: q in store ==> r[q] == store[q]
    ensures p !in store ==> r[p] == content
  {
    if p in store then store else store[p := content]
  }

  /* ---------------- frames ---------------- */

  /** `f"{fmt} {len(data)}".encode() + b"\0" + data`. */
  function Frame(fmt: string, data: seq<byte>): seq<byte>
  {
    Encode(fmt + " " + Decimal(|data|)) + [NUL] + data
  }

  /** A frame at the byte level: a tag, a space, the decimal size, a NUL, the payload. */
  function RawFrame(tag: seq<byte>, data: seq<byte>): seq<byte>
  {
    tag + [SPACE] + Ascii(Decimal(|data|)) + [NUL] + data
  }

  predicate IsAsciiText(s: string) { forall k :: 0 <= k < |s| ==> s[k] as int < 128 }

  /** Two ASCII strings joined by a space encode to their bytes around a space byte. */
  lemma HeaderBytes(a: string, b: string)
    requires IsAsciiText(a) && IsAsciiText(b)
    ensures Encode(a + " " + b) == Ascii(a) + [SPACE] + Ascii(b)
  {
    var text := a + " " + b;
    assert IsAsciiText(text);
    EncodeAscii(text);
    AsciiAppend(a + " ", b);
    AsciiAppend(a, " ");
    assert Ascii(" ") == [SPACE];
  }

  /** For an ASCII `fmt` the encoded header is its bytes, a space, the digits and a NUL. */
  lemma FrameLayout(fmt: string, data: seq<byte>)
    requires IsAsciiText(fmt)
    ensures Frame(fmt, data) == RawFrame(Ascii(fmt), data)
  {
    HeaderBytes(fmt, Decimal(|data|));
  }

  /** The three parts `object_read` cuts a frame into. */
  datatype Framed = Framed(tag: seq<byte>, size: int, payload: seq<byte>)

  /**
   * `object_read`'s split: `x` is the first space, `y` the first NUL at or after `x`; the tag is
   * `full[:x]`, the size `int(full[x+1:y])` and the payload `full[y+1:]`, each with Python's
   * meaning of -1 when a byte is missing. The size is parsed but never compared with the payload.
   */
  function ParseFrame(full: seq<byte>): (r: Result<Framed, Error>)
    ensures r.Err? ==> r.error == BadSizeField
  {
    var x := Find(full, SPACE, 0);
    var y := Find(full, NUL, x);
    match ParseInt(Slice(full, x + 1, y))
    case None => Err(BadSizeField)
    case Some(n) => Ok(Framed(Slice(full, 0, x), n, Slice(full, y + 1, |full|)))
  }

  /** Where `object_read`'s two searches land in a frame, and the three slices they cut. */
  lemma FrameCuts(tag: seq<byte>, digits: seq<byte>, data: seq<byte>)
    requires SPACE !in tag && NUL !in digits
    ensures var full, y := tag + [SPACE] + digits + [NUL] + data, |tag| + 1 + |digits|;
      && Find(full, SPACE, 0) == |tag|
      && Find(full, NUL, |tag|) == y
      && Slice(full, |tag| + 1, y) == digits
      && Slice(full, 0, |tag|) == tag
      && Slice(full, y + 1, |full|) == data
  {
    var full := tag + [SPACE] + digits + [NUL] + data;
    forall m | 0 <= m < |tag| ensures full[m] != SPACE {
      assert full[m] == tag[m];
    }
    FindFirst(full, SPACE, 0, |tag|);
    var y := |tag| + 1 + |digits|;
    forall m | |tag| <= m < y ensures full[m] != NUL {
      if m > |tag| { assert full[m] == digits[m - |tag| - 1]; }
    }
    FindFirst(full, NUL, |tag|, y);
    assert full[|tag| + 1..y] == digits;
    assert full[..|tag|] == tag;
    assert full[y + 1..] == data;
  }

  /** A frame with any digit field `int()` accepts splits into its tag, that number and its payload. */
  lemma FrameParse(tag: seq<byte>, digits: seq<byte>, data: seq<byte>, n: int)
    requires SPACE !in tag && NUL !in digits && ParseInt(digits) == Some(n)
    ensures ParseFrame(tag + [SPACE] + digits + [NUL] + data) == Ok(Framed(tag, n, data))
  {
    FrameCuts(tag, digits, data);
  }

  lemma DecimalNoNul(n: nat)
    ensures NUL !in Ascii(Decimal(n))
  {
    var digits := Ascii(Decimal(n));
    forall k | 0 <= k < |digits| ensures digits[k] != NUL {
      assert digits[k] as int == Decimal(n)[k] as int;
    }
  }

  /**
   * Frame round trip: for a tag without a space byte, the split recovers the tag, the payload
   * (whatever spaces and NULs it holds) and, as the size, the payload's length.
   */
  lemma FrameRoundTrip(tag: seq<byte>, data: seq<byte>)
    requires SPACE !in tag
    ensures ParseFrame(RawFrame(tag, data)) == Ok(Framed(tag, |data|, data))
  {
    DecimalNoNul(|data|);
    ParseDecimal(|data|);
    FrameParse(tag, Ascii(Decimal(|data|)), data, |data|);
  }

  /* ---------------- objects ---------------- */

  /** An object as the commands build it for `object_write`. */
  datatype GitObject = Blob(data: seq<byte>) | Tree(entries: seq<TreeEntry>) | CommitObject(commit: Commit)

  /** An object as `object_read` returns it. */
  datatype Loaded = LoadedBlob(data: seq<byte>) | LoadedTree(entries: seq<TreeEntry>) | LoadedCommit(commit: ParsedCommit)

  const BLOB_TAG: seq<byte> := Ascii("blob")
  const COMMIT_TAG: seq<byte> := Ascii("commit")
  const TREE_TAG: seq<byte> := Ascii("tree")

  /** The `fmt` every call of `object_write` passes along with its object. */
  function Kind(o: GitObject): (fmt: string)
    ensures IsAsciiText(fmt) && SPACE !in Ascii(fmt)
  {
    match o
    case Blob(_) => "blob"
    case Tree(_) => "tree"
    case CommitObject(_) => "commit"
  }

  /** `obj.serialize()`; None where serialising a tree raises. */
  function Payload(o: GitObject): (r: Option<seq<byte>>)
    ensures o.Blob? ==> r == Some(o.data)
  {
    match o
    case Blob(data) => Some(BlobSerialize(data))
    case Tree(es) => TreeBytes(es)
    case CommitObject(c) => Some(CommitBytes(c))
  }

  /** The dispatch on the tag at the end of `object_read`. */
  function Decoded(tag: seq<byte>, payload: seq<byte>): (r: Result<Loaded, Error>)
    ensures r.Err? && r.error.UnknownObjectType? <==> tag != BLOB_TAG && tag != COMMIT_TAG && tag != TREE_TAG
  {
    if tag == BLOB_TAG then Ok(LoadedBlob(payload))
    else if tag == COMMIT_TAG then
      match ParseCommit(payload)
      case Err(e) => Err(e)
      case Ok(c) => Ok(LoadedCommit(c))
    else if tag == TREE_TAG then
      match ParseTree(payload)
      case Err(e) => Err(e)
      case Ok(es) => Ok(LoadedTree(es))
    else Err(UnknownObjectType(tag))
  }

  /** `object_read(repo, sha)`: the file, decompressed, split, and decoded by its tag. */
  function ReadObject(store: ObjectMap, z: Compressor, sha: string): (r: Result<Loaded, Error>)
    ensures PathOf(sha) !in store ==> r == Err(ObjectNotFound(sha))
    ensures r.Ok? ==> PathOf(sha) in store && z.decompress(store[PathOf(sha)]).Some?
  {
    var p := PathOf(sha);
    if p !in store then Err(ObjectNotFound(sha))
    else
      match z.decompress(store[p])
      case None => Err(CorruptData)
      case Some(full) =>
        match ParseFrame(full)
        case Err(e) => Err(e)
        case Ok(f) => Decoded(f.tag, f.payload)
  }

  /** A well-formed frame whose tag is none of `blob`, `commit`, `tree` is refused as an unknown type. */
  lemma ReadUnknownTag(store: ObjectMap, z: Compressor, sha: string, tag: seq<byte>, data: seq<byte>)
    requires PathOf(sha) in store && z.decompress(store[PathOf(sha)]) == Some(RawFrame(tag, data))
    requires SPACE !in tag && tag != BLOB_TAG && tag != COMMIT_TAG && tag != TREE_TAG
    ensures ReadObject(store, z, sha) == Err(UnknownObjectType(tag))
  {
    FrameRoundTrip(tag, data);
  }

  /** The objects the round trips carry unchanged. */
  predicate Storable(o: GitObject)
  {
    match o
    case Blob(_) => true
    case Tree(es) => forall k :: 0 <= k < |es| ==> EntryOk(es[k])
    case CommitObject(c) =>
      && NoLineBreak(c.tree) && NoLineBreak(c.author)
      && (c.parent.Some? ==> NoLineBreak(c.parent.value))
      && MessageOk(c.message)
  }

  /** What reading a storable object back gives: the committer line and an empty parent are lost. */
  function Restored(o: GitObject): Loaded
  {
    match o
    case Blob(data) => LoadedBlob(data)
    case Tree(es) => LoadedTree(es)
    case CommitObject(c) => LoadedCommit(ParsedCommit(Some(c.tree), ParentBack(c.parent), Some(c.author), Some(c.message)))
  }

  lemma PayloadRoundTrip(o: GitObject)
    requires Storable(o)
    ensures Payload(o).Some? && Decoded(Ascii(Kind(o)), Payload(o).value) == Ok(Restored(o))
  {
    assert BLOB_TAG[0] != TREE_TAG[0] && BLOB_TAG[0] != COMMIT_TAG[0] && COMMIT_TAG[0] != TREE_TAG[0];
    match o
    case Blob(_) =>
    case Tree(es) =>
      TreeRoundTrip(es);
    case CommitObject(c) =>
      CommitRoundTrip(c);
  }

  /**
   * Read after write: once a storable object's frame is in the store under its own name (put
   * there by this write, or already there with the same frame), reading the name gives the
   * object back.
   */
  lemma ObjectRoundTrip(store: ObjectMap, h: Hasher, z: Compressor, o: GitObject)
    requires Lossless(z) && Storable(o)
    ensures Payload(o).Some?
    ensures
      var full := Frame(Kind(o), Payload(o).value);
      var sha := HexDigest(h, full);
      (PathOf(sha) in store ==> z.decompress(store[PathOf(sha)]) == Some(full)) ==>
      ReadObject(Put(store, PathOf(sha), z.compress(full)), z, sha) == Ok(Restored(o))
  {
    PayloadRoundTrip(o);
    var payload := Payload(o).value;
    var full := Frame(Kind(o), payload);
    FrameLayout(Kind(o), payload);
    FrameRoundTrip(Ascii(Kind(o)), payload);
    var sha := HexDigest(h, full);
    if PathOf(sha) in store ==> z.decompress(store[PathOf(sha)]) == Some(full) {
      var after := Put(store, PathOf(sha), z.compress(full));
      assert z.decompress(z.compress(full)) == Some(full);
      ReadFramed(after, z, sha, full, Framed(Ascii(Kind(o)), |payload|, payload));
    }
  }

  /** What `object_write` returns and the store it leaves behind. */
  datatype Write = Write(sha: string, store: ObjectMap)

  /**
   * `object_write`: serialise, frame, hash, and store the compressed frame under the digest
   * unless a file is already there; serialising a tree raises on the first sha that is not hex.
   */
  function WriteObject(h: Hasher, z: Compressor, store: ObjectMap, o: GitObject): (r: Result<Write, Error>)
    ensures r.Ok? <==> Payload(o).Some?
    ensures r.Ok? ==> r.value.sha == HexDigest(h, Frame(Kind(o), Payload(o).value))
    ensures r.Ok? ==> IsHexSha(r.value.sha) && r.value.store.Keys == store.Keys + {PathOf(r.value.sha)}
    ensures r.Ok? ==> forall p :: p in store ==> r.value.store[p] == store[p]
    ensures r.Ok? && PathOf(r.value.sha) !in store ==> r.value.store[PathOf(r.value.sha)] == z.compress(Frame(Kind(o), Payload(o).value))
    ensures r.Err? ==> o.Tree? && FirstNonHex(o.entries) < |o.entries| && r.error == NonHexSha(o.entries[FirstNonHex(o.entries)].sha)
  {
    match Payload(o)
    case None => Err(NonHexSha(o.entries[FirstNonHex(o.entries)].sha))
    case Some(data) =>
      var full := Frame(Kind(o), data);
      var sha := HexDigest(h, full);
      Ok(Write(sha, Put(store, PathOf(sha), z.compress(full))))
  }

  /** Writing an object a second time returns the same sha and changes nothing. */
  lemma WriteTwice(h: Hasher, z: Compressor, store: ObjectMap, o: GitObject)
    requires Payload(o).Some?
    ensures WriteObject(h, z, WriteObject(h, z, store, o).value.store, o) == Ok(WriteObject(h, z, store, o).value)
  {
    var w := WriteObject(h, z, store, o).value;
    assert PathOf(w.sha) in w.store;
  }

  /** Reading a name whose file decompresses to a well-formed frame decodes that frame's payload by its tag. */
  lemma ReadFramed(store: ObjectMap, z: Compressor, sha: string, full: seq<byte>, f: Framed)
    requires PathOf(sha) in store && z.decompress(store[PathOf(sha)]) == Some(full)
    requires ParseFrame(full) == Ok(f)
    ensures ReadObject(store, z, sha) == Decoded(f.tag, f.payload)
  {
  }

  /* ---------------- content addressing ---------------- */

  /** Every object file decompresses to a frame whose digest names that very file. */
  ghost predicate Consistent(store: ObjectMap, h: Hasher, z: Compressor)
  {
    forall p :: p in store ==>
      z.decompress(store[p]).Some? && PathOf(HexDigest(h, z.decompress(store[p]).value)) == p
  }

  /** `object_write`'s store update keeps every file named by the digest of its frame. */
  lemma PutConsistent(store: ObjectMap, h: Hasher, z: Compressor, full: seq<byte>)
    requires Lossless(z) && Consistent(store, h, z)
    ensures Consistent(Put(store, PathOf(HexDigest(h, full)), z.compress(full)), h, z)
  {
    assert z.decompress(z.compress(full)) == Some(full);
  }

  /** In a consistent store, the object found under a name is one whose frame hashes to that name. */
  lemma StoredUnderOwnDigest(store: ObjectMap, h: Hasher, z: Compressor, sha: string)
    requires Consistent(store, h, z) && PathOf(sha) in store
    ensures z.decompress(store[PathOf(sha)]).Some?
    ensures HexDigest(h, z.decompress(store[PathOf(sha)]).value) == sha
  {
    var p := PathOf(sha);
    var other := HexDigest(h, z.decompress(store[p]).value);
    assert PathOf(other) == p;
    assert other == PathOf(other).dir + PathOf(other).file;
  }
}
