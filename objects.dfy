/**
 * The three object kinds and their payload formats: a blob is its bytes; a tree is a run of
 * entries `"<mode> <path>\0"` followed by 20 raw hash bytes; a commit is UTF-8 text with a
 * `tree`/`parent`/`author`/`committer` header, a blank line and the message.
 */
module Objects {
  import opened Wrappers
  import opened Bytes
  import opened Utf8
  import opened PyStr

  /** The exceptions the object layer raises, by cause. */
  datatype Error =
    | ObjectNotFound(sha: string)      // no file at the object's path
    | CorruptData                      // zlib.decompress raises
    | BadSizeField                     // int() on the frame's size field raises
    | UnicodeError                     // bytes.decode() raises
    | MalformedTreeEntry               // an entry header without a space: the unpacking raises
    | TreeParseLoops                   // the tree parser would loop for ever on this payload
    | NonHexSha(sha: string)           // bytes.fromhex raises while serialising a tree
    | UnknownObjectType(tag: seq<byte>)
    | NotACommit(sha: string)          // attribute access on a blob or tree read as a commit

  /* ---------------- blob ---------------- */

  /** `GitBlob.serialize` and `GitBlob.deserialize` are both the identity on the payload. */
  function BlobSerialize(data: seq<byte>): (r: seq<byte>)
    ensures |r| == |data|
    ensures forall k :: 0 <= k < |r| ==> r[k] == data[k]
  {
    data
  }

  /* ---------------- tree ---------------- */

  datatype TreeEntry = TreeEntry(mode: string, path: string, sha: string)

  /** The entry header `f"{mode} {path}".encode()`, without its NUL. */
  function EntryHeader(e: TreeEntry): seq<byte>
  {
    Encode(e.mode + " " + e.path)
  }

  /** One serialised entry, or None where `bytes.fromhex(sha)` raises. */
  function EntryBytes(e: TreeEntry): (r: Option<seq<byte>>)
    ensures r.Some? <==> FromHex(e.sha).Some?
  {
    match FromHex(e.sha)
    case None => None
    case Some(hb) => Some(EntryHeader(e) + [NUL] + hb)
  }

  /** `GitTree.serialize` as a value: the entries' bytes in order. */
  function TreeBytes(es: seq<TreeEntry>): (r: Option<seq<byte>>)
  {
    if es == [] then Some([])
    else match TreeBytes(es[..|es| - 1])
      case None => None
      case Some(front) =>
        match EntryBytes(es[|es| - 1])
        case None => None
        case Some(b) => Some(front + b)
  }

  /** `GitTree.serialize`: accumulate each entry's header, NUL and raw hash bytes. */
  method SerializeTree(es: seq<TreeEntry>) returns (r: Result<seq<byte>, Error>)
    ensures r.Ok? <==> TreeBytes(es).Some?
    ensures r.Ok? ==> r.value == TreeBytes(es).value
    ensures r.Err? ==> FirstNonHex(es) < |es| && r.error == NonHexSha(es[FirstNonHex(es)].sha)
  {
    var result: seq<byte> := [];
    var i := 0;
    while i < |es|
      invariant 0 <= i <= FirstNonHex(es)
      invariant TreeBytes(es[..i]) == Some(result)
    {
      var e := es[i];
      var header := Encode(e.mode + " " + e.path) + [NUL];
      var shaBytes := FromHex(e.sha);
      if shaBytes.None? {
        TreeBytesFails(es, i);
        return Err(NonHexSha(e.sha));
      }
      TreeBytesSnoc(es, i, result, header + shaBytes.value);
      HexPast(es, i);
      result := result + (header + shaBytes.value);
      i := i + 1;
    }
    assert es[..i] == es;
    return Ok(result);
  }

  lemma HexPast(es: seq<TreeEntry>, i: nat)
    requires i < |es| && i <= FirstNonHex(es) && FromHex(es[i].sha).Some?
    ensures i + 1 <= FirstNonHex(es)
  {
  }

  lemma TreeBytesSnoc(es: seq<TreeEntry>, i: nat, front: seq<byte>, b: seq<byte>)
    requires i < |es| && TreeBytes(es[..i]) == Some(front)
    requires FromHex(es[i].sha).Some?
    requires b == Encode(es[i].mode + " " + es[i].path) + [NUL] + FromHex(es[i].sha).value
    ensures TreeBytes(es[..i + 1]) == Some(front + b)
  {
    assert es[..i + 1][..i] == es[..i];
  }

  /** The position of the first entry whose sha `bytes.fromhex` rejects, or `|es|` when there is none. */
  function FirstNonHex(es: seq<TreeEntry>): (k: nat)
    ensures k <= |es|
    ensures k < |es| ==> FromHex(es[k].sha).None?
    ensures forall m :: 0 <= m < k ==> FromHex(es[m].sha).Some?
    ensures k == |es| <==> TreeBytes(es).Some?
  {
    if es == [] then 0
    else
      var n := |es| - 1;
      var f := FirstNonHex(es[..n]);
      assert forall m :: 0 <= m < n ==> es[..n][m] == es[m];
      if f < n then f
      else if FromHex(es[n].sha).None? then n
      else |es|
  }

  lemma {:induction false} TreeBytesFails(es: seq<TreeEntry>, i: nat)
    requires i < |es| && FromHex(es[i].sha).None?
    ensures TreeBytes(es).None?
    decreases |es|
  {
    if i < |es| - 1 {
      assert es[..|es| - 1][i] == es[i];
      TreeBytesFails(es[..|es| - 1], i);
    }
  }

  /** What a well-formed entry needs for its bytes to parse back to it. */
  predicate EntryOk(e: TreeEntry)
  {
    && NoChar(e.mode, ' ')
    && NoChar(e.mode, '\0') && NoChar(e.path, '\0')
    && IsHexSha(e.sha)
  }

  /** One pass of the tree parse loop at offset `i`: the entry read there and the NUL's index `j`. */
  datatype TreeStep = StepFailed(error: Error) | StepRead(entry: TreeEntry, j: int)

  function ReadEntryAt(data: seq<byte>, i: nat): (r: TreeStep)
    ensures r.StepRead? ==> r.j == -1 || i <= r.j < |data|
    ensures r.StepFailed? ==> r.error == UnicodeError || r.error == MalformedTreeEntry
  {
    var j := Find(data, NUL, i);
    match Decode(Slice(data, i, j))
    case None => StepFailed(UnicodeError)
    case Some(modePath) =>
      match SplitOnce(modePath, ' ')
      case None => StepFailed(MalformedTreeEntry)
      case Some((mode, path)) => StepRead(TreeEntry(mode, path, ToHex(Slice(data, j + 1, j + 21))), j)
  }

  /**
   * What one pass reads at `i`: `j` is the first NUL at or after `i` (or -1 when there is none),
   * the bytes before it decode to the mode, a space and the path, with no space in the mode, and
   * the sha is the hex of the (up to) 20 bytes after the NUL.
   */
  lemma ReadEntryLayout(data: seq<byte>, i: nat)
    ensures var r := ReadEntryAt(data, i);
      && (r.StepRead? && r.j != -1 ==> data[r.j] == NUL && forall m :: i <= m < r.j ==> data[m] != NUL)
      && (r.StepRead? && r.j == -1 ==> forall m :: i <= m < |data| ==> data[m] != NUL)
      && (r.StepRead? ==>
        && NoChar(r.entry.mode, ' ')
        && Decode(Slice(data, i, r.j)) == Some(r.entry.mode + " " + r.entry.path)
        && r.entry.sha == ToHex(Slice(data, r.j + 1, r.j + 21)))
  {
    var j := Find(data, NUL, i);
    FindNul(data, i);
    var r := ReadEntryAt(data, i);
    assert r.StepRead? ==> r.j == j;
    match Decode(Slice(data, i, j))
    case None =>
    case Some(modePath) =>
      SplitOnceParts(modePath, ' ');
      match SplitOnce(modePath, ' ')
      case None =>
      case Some((mode, path)) =>
        assert NoChar(mode, ' ');
  }

  /** `data.find(b'\x00', i)`: the first NUL at or after `i`, or -1 when there is none. */
  lemma FindNul(data: seq<byte>, i: nat)
    ensures var j := Find(data, NUL, i);
      && (j != -1 ==> i <= j < |data| && data[j] == NUL && forall m :: i <= m < j ==> data[m] != NUL)
      && (j == -1 ==> forall m :: i <= m < |data| ==> data[m] != NUL)
  {
    assert Find(data, NUL, i) == FindFrom(data, NUL, Clamp(|data|, i));
    FindFromFirst(data, NUL, Clamp(|data|, i));
  }

  /**
   * `read` behaves as one pass of the parse loop over `size` bytes can: it fails only with a
   * decode error or a header without a space, and a successful pass at `k` finds no NUL (-1) or
   * a NUL in `[k, size)`.
   */
  predicate Reader(size: nat, read: nat -> TreeStep)
  {
    forall k: nat :: k < size ==>
      && (read(k).StepFailed? ==> read(k).error == UnicodeError || read(k).error == MalformedTreeEntry)
      && (read(k).StepRead? ==> read(k).j == -1 || k <= read(k).j < size)
  }

  /** One pass of the parse loop at each offset of `data`. */
  function TreeReads(data: seq<byte>): (read: nat -> TreeStep)
    ensures Reader(|data|, read) && Steps(data, read)
  {
    (k: nat) => ReadEntryAt(data, k)
  }

  /**
   * The parse loop of `GitTree.deserialize` from offset `i` over `size` bytes, `read(k)` being
   * the pass at offset `k`. `j == -1` (no NUL left) sends the source back to offset 20; a second
   * such rewind repeats a state already seen, so the source loops for ever: `TreeParseLoops`.
   */
  function ParseTreeFrom(size: nat, read: nat -> TreeStep, i: int, rewound: bool, acc: seq<TreeEntry>): (r: Result<seq<TreeEntry>, Error>)
    requires Reader(size, read) && 0 <= i <= size + 20
    ensures r.Err? ==> r.error == UnicodeError || r.error == MalformedTreeEntry || r.error == TreeParseLoops
    decreases (if rewound then 0 else 1), size + 21 - i
  {
    if i >= size then Ok(acc)
    else
      match read(i)
      case StepFailed(e) => Err(e)
      case StepRead(entry, j) =>
        if j == -1 then
          if rewound then Err(TreeParseLoops) else ParseTreeFrom(size, read, 20, true, acc + [entry])
        else ParseTreeFrom(size, read, j + 21, rewound, acc + [entry])
  }

  function ParseTree(data: seq<byte>): (r: Result<seq<TreeEntry>, Error>)
    ensures r.Err? ==> r.error == UnicodeError || r.error == MalformedTreeEntry || r.error == TreeParseLoops
  {
    ParseTreeFrom(|data|, TreeReads(data), 0, false, [])
  }

  /** One pass of the parse loop from offset `i`, given what `read` reads there. */
  lemma ParseTreeNext(size: nat, read: nat -> TreeStep, i: int, rewound: bool, acc: seq<TreeEntry>)
    requires Reader(size, read) && 0 <= i < size
    ensures var step := read(i);
      && (step.StepFailed? ==> ParseTreeFrom(size, read, i, rewound, acc) == Err(step.error))
      && (step.StepRead? && step.j == -1 ==>
        ParseTreeFrom(size, read, i, rewound, acc) == if rewound then Err(TreeParseLoops) else ParseTreeFrom(size, read, 20, true, acc + [step.entry]))
      && (step.StepRead? && step.j != -1 ==>
        step.j + 21 <= size + 20 && ParseTreeFrom(size, read, i, rewound, acc) == ParseTreeFrom(size, read, step.j + 21, rewound, acc + [step.entry]))
  {
  }

  /** `GitTree.deserialize`: the `while i < len(data)` loop over entries, reading each with `ReadEntryAt`. */
  method DeserializeTree(data: seq<byte>) returns (r: Result<seq<TreeEntry>, Error>)
    ensures r == ParseTree(data)
  {
    r := ParseEntries(|data|, TreeReads(data));
  }

  /** The `while i < len(data)` loop over `size` bytes, `read(i)` being the pass at offset `i`. */
  method ParseEntries(size: nat, read: nat -> TreeStep) returns (r: Result<seq<TreeEntry>, Error>)
    requires Reader(size, read)
    ensures r == ParseTreeFrom(size, read, 0, false, [])
  {
    var entries: seq<TreeEntry> := [];
    var i := 0;
    var rewound := false;
    while i < size
      invariant 0 <= i <= size + 20
      invariant ParseTreeFrom(size, read, i, rewound, entries) == ParseTreeFrom(size, read, 0, false, [])
      decreases (if rewound then 0 else 1), size + 21 - i
    {
      var step := read(i);
      ParseTreeNext(size, read, i, rewound, entries);
      if step.StepFailed? {
        return Err(step.error);
      }
      var next := entries + [step.entry];
      if step.j == -1 {
        if rewound {
          return Err(TreeParseLoops);
        }
        i, rewound := 20, true;
      } else {
        i := step.j + 21;
      }
      entries := next;
    }
    return Ok(entries);
  }

  /* ---------------- commit ---------------- */

  /** A commit as `cmd_commit` builds it; an empty or absent parent is left out when serialising. */
  datatype Commit = Commit(tree: string, parent: Option<string>, author: string, message: string)

  /**
   * A commit as `GitCommit.deserialize` returns it: each header field is None when its line is
   * missing, and `message` is None when no blank line is found (the source then keeps its
   * initial empty list).
   */
  datatype ParsedCommit = ParsedCommit(tree: Option<string>, parent: Option<string>, author: Option<string>, message: Option<string>)

  function CommitLines(c: Commit): seq<string>
  {
    ["tree " + c.tree]
    + (if c.parent.Some? && c.parent.value != "" then ["parent " + c.parent.value] else [])
    + ["author " + c.author, "committer " + c.author, "", c.message]
  }

  /** `GitCommit.serialize`: the lines joined with `\n`, encoded as UTF-8. */
  function CommitBytes(c: Commit): seq<byte>
  {
    Encode(Join("\n", CommitLines(c)))
  }

  /** The parse loop of `GitCommit.deserialize` from line `i`, with the fields seen so far. */
  function ParseCommitFrom(lines: seq<string>, i: nat, tree: Option<string>, parent: Option<string>, author: Option<string>): (r: ParsedCommit)
    decreases |lines| - i
  {
    if i >= |lines| then ParsedCommit(tree, parent, author, None)
    else if StartsWith(lines[i], "tree ") then ParseCommitFrom(lines, i + 1, Some(lines[i][5..]), parent, author)
    else if StartsWith(lines[i], "parent ") then ParseCommitFrom(lines, i + 1, tree, Some(lines[i][7..]), author)
    else if StartsWith(lines[i], "author ") then ParseCommitFrom(lines, i + 1, tree, parent, Some(lines[i][7..]))
    else if lines[i] == "" then ParsedCommit(tree, parent, author, Some(Join("\n", lines[i + 1..])))
    else ParseCommitFrom(lines, i + 1, tree, parent, author)
  }

  function ParseCommit(data: seq<byte>): (r: Result<ParsedCommit, Error>)
    ensures r.Err? <==> Decode(data).None?
  {
    match Decode(data)
    case None => Err(UnicodeError)
    case Some(text) => Ok(ParseCommitFrom(SplitLines(text), 0, None, None, None))
  }

  /** `GitCommit.deserialize`: decode, split into lines, scan the header up to the blank line. */
  method DeserializeCommit(data: seq<byte>) returns (r: Result<ParsedCommit, Error>)
    ensures r == ParseCommit(data)
  {
    var text := Decode(data);
    if text.None? {
      return Err(UnicodeError);
    }
    var lines := SplitLines(text.value);
    var tree: Option<string> := None;
    var parent: Option<string> := None;
    var author: Option<string> := None;
    var message: Option<string> := None;
    var i := 0;
    while i < |lines|
      invariant 0 <= i <= |lines|
      invariant ParseCommitFrom(lines, i, tree, parent, author) == ParseCommitFrom(lines, 0, None, None, None)
    {
      if StartsWith(lines[i], "tree ") {
        tree := Some(lines[i][5..]);
      } else if StartsWith(lines[i], "parent ") {
        parent := Some(lines[i][7..]);
      } else if StartsWith(lines[i], "author ") {
        author := Some(lines[i][7..]);
      } else if lines[i] == "" {
        message := Some(Join("\n", lines[i + 1..]));
        break;
      }
      i := i + 1;
    }
    return Ok(ParsedCommit(tree, parent, author, message));
  }

  /* ---------------- round trips ---------------- */

  /** A well-formed entry's bytes. */
  function EntryRaw(e: TreeEntry): (r: seq<byte>)
    requires EntryOk(e)
    ensures EntryBytes(e) == Some(r)
    ensures |r| == |EntryHeader(e)| + 21
  {
    HexShaBytes(e.sha);
    EntryHeader(e) + [NUL] + FromHex(e.sha).value
  }

  /** The bytes of well-formed entries, concatenated front to back. */
  function Flat(es: seq<TreeEntry>): (r: seq<byte>)
    requires forall k :: 0 <= k < |es| ==> EntryOk(es[k])
  {
    if es == [] then [] else assert EntryOk(es[0]); EntryRaw(es[0]) + Flat(es[1..])
  }

  lemma {:induction false} FlatAppend(a: seq<TreeEntry>, b: seq<TreeEntry>)
    requires forall k :: 0 <= k < |a| ==> EntryOk(a[k])
    requires forall k :: 0 <= k < |b| ==> EntryOk(b[k])
    ensures forall k :: 0 <= k < |a + b| ==> EntryOk((a + b)[k])
    ensures Flat(a + b) == Flat(a) + Flat(b)
  {
    if a == [] {
      EmptyPrefix(b);
    } else {
      TailAppend(a, b);
      assert forall k :: 0 <= k < |a| - 1 ==> a[1..][k] == a[k + 1];
      FlatAppend(a[1..], b);
      Assoc(EntryRaw(a[0]), Flat(a[1..]), Flat(b));
    }
  }


  lemma TailAppend<T>(a: seq<T>, b: seq<T>)
    requires a != []
    ensures (a + b)[0] == a[0] && (a + b)[1..] == a[1..] + b
  {
  }

  lemma SliceSplit<T>(data: seq<T>, i: nat, a: seq<T>, b: seq<T>)
    requires i <= |data| && data[i..] == a + b
    ensures i + |a| <= |data| && data[i..i + |a|] == a && data[i + |a|..] == b
  {
    assert data[i..i + |a|] == (a + b)[..|a|];
    assert data[i + |a|..] == (a + b)[|a|..];
  }

  lemma Assoc<T>(x: seq<T>, y: seq<T>, z: seq<T>)
    ensures x + (y + z) == (x + y) + z
  {
  }

  lemma WholeSlice<T>(s: seq<T>)
    ensures s[0..] == s
  {
  }

  lemma EmptyPrefix<T>(s: seq<T>)
    ensures [] + s == s
  {
  }

  lemma FrontLast<T>(s: seq<T>)
    requires s != []
    ensures s[..|s| - 1] + [s[|s| - 1]] == s
  {
  }

  lemma FlatOne(e: TreeEntry)
    requires EntryOk(e)
    ensures Flat([e]) == EntryRaw(e)
  {
    assert [e][1..] == [];
  }

  lemma {:induction false} TreeBytesFlat(es: seq<TreeEntry>)
    requires forall k :: 0 <= k < |es| ==> EntryOk(es[k])
    ensures TreeBytes(es) == Some(Flat(es))
  {
    if es != [] {
      var front, last := es[..|es| - 1], es[|es| - 1];
      assert EntryOk(last);
      assert forall k :: 0 <= k < |front| ==> front[k] == es[k];
      TreeBytesFlat(front);
      FlatAppend(front, [last]);
      FlatOne(last);
      FrontLast(es);
    }
  }

  /** Where the NUL search lands in `header + NUL + sha bytes`, and the two slices it cuts. */
  lemma EntryCuts(data: seq<byte>, i: nat, h: seq<byte>, hb: seq<byte>)
    requires NUL !in h && |hb| == 20
    requires i + |h| + 21 <= |data| && data[i..i + |h| + 21] == h + [NUL] + hb
    ensures Find(data, NUL, i) == i + |h|
    ensures Slice(data, i, i + |h|) == h && Slice(data, i + |h| + 1, i + |h| + 21) == hb
  {
    var j := i + |h|;
    var raw := h + [NUL] + hb;
    forall m | i <= m < j ensures data[m] != NUL {
      assert data[m] == raw[m - i] == h[m - i];
    }
    assert data[j] == raw[|h|];
    FindFirst(data, NUL, i, j);
    assert data[i..j] == raw[..|h|] == h;
    assert data[j + 1..j + 21] == raw[|h| + 1..] == hb;
  }

  /** An entry's header holds no NUL byte and decodes back to `mode + " " + path`. */
  lemma HeaderDecodes(e: TreeEntry)
    requires EntryOk(e)
    ensures NUL !in EntryHeader(e)
    ensures Decode(EntryHeader(e)) == Some(e.mode + " " + e.path)
  {
    var text := e.mode + " " + e.path;
    assert NoChar(text, '\0');
    EncodeAsciiAbsent(text, '\0');
    DecodeEncode(text);
  }

  /** One pass of the loop over `header + NUL + sha bytes`, for any header that decodes to `mode path`. */
  lemma ReadEntryCut(data: seq<byte>, i: nat, h: seq<byte>, hb: seq<byte>, mode: string, path: string)
    requires NUL !in h && |hb| == 20 && NoChar(mode, ' ')
    requires i + |h| + 21 <= |data| && data[i..i + |h| + 21] == h + [NUL] + hb
    requires Decode(h) == Some(mode + [' '] + path)
    ensures ReadEntryAt(data, i) == StepRead(TreeEntry(mode, path, ToHex(hb)), i + |h|)
  {
    EntryCuts(data, i, h, hb);
    SplitOnceAt(mode, ' ', path);
    ReadEntryFound(data, i, i + |h|, mode + [' '] + path, mode, path, hb);
  }

  /** One pass of the loop, given where the NUL search lands and what the header and hash bytes are. */
  lemma ReadEntryFound(data: seq<byte>, i: nat, j: int, text: string, mode: string, path: string, hb: seq<byte>)
    requires Find(data, NUL, i) == j && Slice(data, j + 1, j + 21) == hb
    requires Decode(Slice(data, i, j)) == Some(text) && SplitOnce(text, ' ') == Some((mode, path))
    ensures ReadEntryAt(data, i) == StepRead(TreeEntry(mode, path, ToHex(hb)), j)
  {
  }

  /** At the start of a well-formed entry, one pass of the loop reads exactly that entry. */
  lemma ReadEntryOk(data: seq<byte>, i: nat, e: TreeEntry)
    requires EntryOk(e)
    requires i + |EntryRaw(e)| <= |data|
    requires data[i..i + |EntryRaw(e)|] == EntryRaw(e)
    ensures ReadEntryAt(data, i) == StepRead(e, i + |EntryHeader(e)|)
  {
    var h, hb := EntryHeader(e), FromHex(e.sha).value;
    HexShaBytes(e.sha);
    HeaderDecodes(e);
    assert EntryRaw(e) == h + [NUL] + hb;
    assert e.mode + " " + e.path == e.mode + [' '] + e.path;
    ReadEntryCut(data, i, h, hb, e.mode, e.path);
    assert e == TreeEntry(e.mode, e.path, ToHex(hb));
  }

  /** `step(k)` is the pass of the parse loop at offset `k` of `data`. */
  ghost predicate Steps(data: seq<byte>, step: nat -> TreeStep)
  {
    forall k: nat {:trigger ReadEntryAt(data, k)} :: step(k) == ReadEntryAt(data, k)
  }

  /** `es` lie one after another from offset `i` to `size`, each read by one pass of the loop. */
  ghost predicate Laid(step: nat -> TreeStep, size: nat, i: nat, es: seq<TreeEntry>)
    decreases |es|
  {
    if es == [] then i == size
    else
      var s := step(i);
      && i < size && s.StepRead? && s.entry == es[0] && s.j >= i
      && Laid(step, size, s.j + 21, es[1..])
  }

  lemma {:induction false} ParseLaid(size: nat, step: nat -> TreeStep, i: nat, es: seq<TreeEntry>, acc: seq<TreeEntry>)
    requires Reader(size, step) && Laid(step, size, i, es)
    ensures ParseTreeFrom(size, step, i, false, acc) == Ok(acc + es)
    decreases |es|
  {
    if es == [] {
      assert acc + es == acc;
    } else {
      var next := ParseLaidStep(size, step, i, es, acc);
      ParseLaid(size, step, next, es[1..], acc + [es[0]]);
      ShiftFirst(acc, es);
    }
  }

  /** One pass of the parse loop over laid-out entries reads the first and moves past its hash. */
  lemma ParseLaidStep(size: nat, step: nat -> TreeStep, i: nat, es: seq<TreeEntry>, acc: seq<TreeEntry>) returns (next: nat)
    requires es != [] && Reader(size, step) && Laid(step, size, i, es)
    ensures Laid(step, size, next, es[1..])
    ensures ParseTreeFrom(size, step, i, false, acc) == ParseTreeFrom(size, step, next, false, acc + [es[0]])
  {
    var s := step(i);
    next := s.j + 21;
    ParseTreeNext(size, step, i, false, acc);
  }

  lemma LaidCons(step: nat -> TreeStep, size: nat, i: nat, e: TreeEntry, rest: seq<TreeEntry>, next: nat)
    requires i < size && step(i).StepRead? && step(i).entry == e && i <= step(i).j && step(i).j + 21 == next
    requires Laid(step, size, next, rest)
    ensures Laid(step, size, i, [e] + rest)
  {
    TailAppend([e], rest);
    assert [e][1..] + rest == rest;
  }

  lemma {:induction false} FlatLaid(data: seq<byte>, step: nat -> TreeStep, i: nat, es: seq<TreeEntry>)
    requires forall k :: 0 <= k < |es| ==> EntryOk(es[k])
    requires Steps(data, step) && i <= |data| && data[i..] == Flat(es)
    ensures Laid(step, |data|, i, es)
    decreases |es|
  {
    if es != [] {
      var next := FlatStep(data, i, es);
      var rest := es[1..];
      OkTail(es);
      FlatLaid(data, step, next, rest);
      LaidCons(step, |data|, i, es[0], rest, next);
      HeadTail(es);
    }
  }

  /** The first of the concatenated entries is read at `i`, and the rest follow its hash. */
  lemma FlatStep(data: seq<byte>, i: nat, es: seq<TreeEntry>) returns (next: nat)
    requires es != [] && forall k :: 0 <= k < |es| ==> EntryOk(es[k])
    requires i <= |data| && data[i..] == Flat(es)
    ensures i < |data| && i + 21 <= next <= |data| && data[next..] == Flat(es[1..])
    ensures ReadEntryAt(data, i) == StepRead(es[0], next - 21)
  {
    var e := es[0];
    assert EntryOk(e);
    var raw := EntryRaw(e);
    FlatCons(es);
    next := i + |raw|;
    SliceSplit(data, i, raw, Flat(es[1..]));
    ReadEntryOk(data, i, e);
  }

  lemma OkTail(es: seq<TreeEntry>)
    requires es != [] && forall k :: 0 <= k < |es| ==> EntryOk(es[k])
    ensures forall k :: 0 <= k < |es| - 1 ==> EntryOk(es[1..][k])
  {
    assert forall k :: 0 <= k < |es| - 1 ==> es[1..][k] == es[k + 1];
  }


  lemma FlatCons(es: seq<TreeEntry>)
    requires es != [] && forall k :: 0 <= k < |es| ==> EntryOk(es[k])
    ensures EntryOk(es[0]) && Flat(es) == EntryRaw(es[0]) + Flat(es[1..])
  {
  }

  /** The concatenated entries parse back to the entries. */
  lemma FlatParses(es: seq<TreeEntry>)
    requires forall k :: 0 <= k < |es| ==> EntryOk(es[k])
    ensures ParseTree(Flat(es)) == Ok(es)
  {
    var d := Flat(es);
    WholeSlice(d);
    var step := TreeReads(d);
    FlatLaid(d, step, 0, es);
    ParseLaid(|d|, step, 0, es, []);
    EmptyPrefix(es);
  }

  /**
   * Tree round trip: entries whose mode has no space, whose mode and path have no NUL and whose
   * hash is 40 lower-case hex digits serialise without error and parse back unchanged; each entry
   * takes `len(mode) + 1 + len(path) + 1 + 20` bytes.
   */
  lemma TreeRoundTrip(es: seq<TreeEntry>)
    requires forall k :: 0 <= k < |es| ==> EntryOk(es[k])
    ensures TreeBytes(es).Some?
    ensures ParseTree(TreeBytes(es).value) == Ok(es)
  {
    TreeBytesFlat(es);
    FlatParses(es);
  }

  lemma EntrySize(e: TreeEntry)
    requires EntryOk(e)
    ensures EntryBytes(e).Some?
    ensures |EntryBytes(e).value| == |Encode(e.mode)| + 1 + |Encode(e.path)| + 1 + 20
  {
    HexShaBytes(e.sha);
    EncodeAppend(e.mode + " ", e.path);
    EncodeAppend(e.mode, " ");
  }

  function ParentBack(p: Option<string>): Option<string>
  {
    if p.Some? && p.value != "" then p else None
  }

  lemma NoBreakPrefixed(prefix: string, v: string)
    requires NoLineBreak(prefix) && NoLineBreak(v)
    ensures NoLineBreak(prefix + v)
  {
    forall k | 0 <= k < |prefix + v| ensures !IsLineBreak((prefix + v)[k]) {
      if k >= |prefix| { assert (prefix + v)[k] == v[k - |prefix|]; }
    }
  }

  /** The header lines of a serialised commit, up to and including the blank line. */
  function CommitHead(c: Commit): seq<string>
  {
    ["tree " + c.tree]
    + (if c.parent.Some? && c.parent.value != "" then ["parent " + c.parent.value] else [])
    + ["author " + c.author, "committer " + c.author, ""]
  }

  lemma CommitLinesSplit(c: Commit)
    requires NoLineBreak(c.tree) && NoLineBreak(c.author)
    requires c.parent.Some? ==> NoLineBreak(c.parent.value)
    ensures SplitLines(Join("\n", CommitLines(c))) == CommitHead(c) + SplitLines(c.message)
  {
    NoBreakPrefixed("tree ", c.tree);
    NoBreakPrefixed("author ", c.author);
    NoBreakPrefixed("committer ", c.author);
    if c.parent.Some? { NoBreakPrefixed("parent ", c.parent.value); }
    assert CommitLines(c) == CommitHead(c) + [c.message];
    SplitLinesJoin(CommitHead(c), c.message);
  }

  lemma CommitHeadParse(c: Commit, rest: seq<string>)
    ensures ParseCommitFrom(CommitHead(c) + rest, 0, None, None, None)
      == ParsedCommit(Some(c.tree), ParentBack(c.parent), Some(c.author), Some(Join("\n", rest)))
  {
    var lines := CommitHead(c) + rest;
    var tl, al, cl := "tree " + c.tree, "author " + c.author, "committer " + c.author;
    assert tl[..5] == "tree " && tl[5..] == c.tree;
    assert al[0] == 'a' && al[..7] == "author " && al[7..] == c.author;
    assert cl[0] == 'c' && cl != "";
    var n := |CommitHead(c)|;
    assert lines[n - 1] == "" && lines[n..] == rest;
    var msg := ParsedCommit(Some(c.tree), ParentBack(c.parent), Some(c.author), Some(Join("\n", rest)));
    assert StartsWith(tl, "tree ") && !StartsWith(al, "tree ") && !StartsWith(al, "parent ");
    assert StartsWith(al, "author ");
    assert !StartsWith(cl, "tree ") && !StartsWith(cl, "parent ") && !StartsWith(cl, "author ");
    if c.parent.Some? && c.parent.value != "" {
      var pl := "parent " + c.parent.value;
      assert pl[0] == 'p' && pl[..7] == "parent " && pl[7..] == c.parent.value;
      assert !StartsWith(pl, "tree ") && StartsWith(pl, "parent ");
      assert lines[0] == tl && lines[1] == pl && lines[2] == al && lines[3] == cl && n == 5;
      assert ParseCommitFrom(lines, 4, Some(c.tree), c.parent, Some(c.author)) == msg;
      assert ParseCommitFrom(lines, 3, Some(c.tree), c.parent, Some(c.author)) == msg;
      assert ParseCommitFrom(lines, 2, Some(c.tree), c.parent, None) == msg;
      assert ParseCommitFrom(lines, 1, Some(c.tree), None, None) == msg;
    } else {
      assert lines[0] == tl && lines[1] == al && lines[2] == cl && n == 4;
      assert ParseCommitFrom(lines, 3, Some(c.tree), None, Some(c.author)) == msg;
      assert ParseCommitFrom(lines, 2, Some(c.tree), None, Some(c.author)) == msg;
      assert ParseCommitFrom(lines, 1, Some(c.tree), None, None) == msg;
    }
  }

  /**
   * Commit round trip: with no line boundary in the header fields, and a message whose only line
   * boundary is `\n` and which does not end with one, parsing gives back tree, author and message;
   * an empty or absent parent comes back as None. The committer line is not read back.
   */
  lemma CommitRoundTrip(c: Commit)
    requires NoLineBreak(c.tree) && NoLineBreak(c.author)
    requires c.parent.Some? ==> NoLineBreak(c.parent.value)
    requires MessageOk(c.message)
    ensures ParseCommit(CommitBytes(c)) == Ok(ParsedCommit(Some(c.tree), ParentBack(c.parent), Some(c.author), Some(c.message)))
  {
    var text := Join("\n", CommitLines(c));
    DecodeEncode(text);
    CommitLinesSplit(c);
    CommitHeadParse(c, SplitLines(c.message));
    JoinSplitLines(c.message);
  }
}
