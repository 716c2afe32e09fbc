/**
 * The commands that reconcile the index, the head ref and the object store: `add`, `rm`,
 * `commit`, `status` and `log`. A repository is its object files, the index file
 * `.minigit/index` and the ref file `refs/heads/master`; each command reads the index text,
 * works on the dictionary it holds and writes it back.
 */
module Repo {
  import opened Wrappers
  import opened Bytes
  import opened Utf8
  import opened PyStr
  import opened Objects
  import opened Store
  import opened IndexFile
  import opened Trailer

  /** What a command raises: an object-layer error, or an index line that is not two words. */
  datatype Failure = Raised(error: Error) | BadIndexLine(line: string)

  /** The files the commands read and write; an absent file is None. */
  datatype RepoState = RepoState(objects: ObjectMap, index: Option<string>, head: Option<string>)

  /* ---------------- the head commit ---------------- */

  /** The head ref file's text as text mode reads it, stripped; "" when there is no ref file. */
  function HeadSha(head: Option<string>): string
  {
    if head.None? then "" else Strip(Translate(head.value))
  }

  /**
   * The paths the head commit's `[files]` trailer lists. Reading the head commit raises as
   * `object_read` does, and a blob or tree in its place has no `message` to read.
   */
  function HeadTracked(z: Compressor, s: RepoState): (r: Result<set<string>, Failure>)
    ensures HeadSha(s.head) == "" ==> r == Ok({})
    ensures r.Ok? && HeadSha(s.head) != "" ==> PathOf(HeadSha(s.head)) in s.objects
    ensures r.Ok? ==> forall p :: p in r.value ==> p != "" && Strip(p) == p
  {
    var sha := HeadSha(s.head);
    if sha == "" then Ok({})
    else
      match ReadObject(s.objects, z, sha)
      case Err(e) => Err(Raised(e))
      case Ok(LoadedCommit(c)) => Ok(TrackedPaths(c.message))
      case Ok(_) => Err(Raised(NotACommit(sha)))
  }

  /** The index and the head commit's tracked paths, read in that order by `add`, `commit` and `status`. */
  datatype Tracking = Tracking(index: Entries, previous: set<string>)

  function ReadTracking(z: Compressor, s: RepoState): (r: Result<Tracking, Failure>)
    ensures r.Ok? ==> Writable(r.value.index)
  {
    match IndexOf(s.index)
    case Err(line) => Err(BadIndexLine(line))
    case Ok(idx) =>
      IndexWritable(s.index);
      match HeadTracked(z, s)
      case Err(f) => Err(f)
      case Ok(prev) => Ok(Tracking(idx, prev))
  }

  /** Reading the head commit gives the same answer in a store that kept every file it had. */
  lemma HeadTrackedKept(z: Compressor, s: RepoState, s': RepoState)
    requires HeadTracked(z, s).Ok? && s'.head == s.head
    requires forall q :: q in s.objects ==> q in s'.objects && s'.objects[q] == s.objects[q]
    ensures HeadTracked(z, s') == HeadTracked(z, s)
  {
    var sha := HeadSha(s.head);
    if sha != "" {
      assert s'.objects[PathOf(sha)] == s.objects[PathOf(sha)];
    }
  }

  /* ---------------- add ---------------- */

  /** Whether `add_path` stages `p`: a file of the work tree that is not tracked. */
  predicate Stages(files: map<string, seq<byte>>, tracked: set<string>, p: string)
  {
    p in files && p !in tracked
  }

  /** The paths among `paths` that `add` stages. */
  function Staged(files: map<string, seq<byte>>, tracked: set<string>, paths: seq<string>): set<string>
  {
    set p | p in paths && Stages(files, tracked, p)
  }

  /** The name `object_write` gives a blob holding `data`. */
  function BlobSha(h: Hasher, data: seq<byte>): (sha: string)
    ensures IsHexSha(sha)
  {
    HexDigest(h, Frame("blob", data))
  }

  /** The index after `add_path` has run on each of `paths` in turn. */
  function StagedIndex(h: Hasher, files: map<string, seq<byte>>, tracked: set<string>, idx: Entries, paths: seq<string>): Entries
    decreases |paths|
  {
    if paths == [] then idx
    else
      var p := paths[0];
      var next := if Stages(files, tracked, p) then Assign(idx, p, BlobSha(h, files[p])) else idx;
      StagedIndex(h, files, tracked, next, paths[1..])
  }

  /** The object files after those calls: one blob written for each path staged. */
  function StoredBlobs(h: Hasher, z: Compressor, files: map<string, seq<byte>>, tracked: set<string>, store: ObjectMap, paths: seq<string>): ObjectMap
    decreases |paths|
  {
    if paths == [] then store
    else
      var p := paths[0];
      var next := if Stages(files, tracked, p) then WriteObject(h, z, store, Blob(files[p])).value.store else store;
      StoredBlobs(h, z, files, tracked, next, paths[1..])
  }

  /**
   * `cmd_add` with the work tree's files given as a map from relative path to contents: the
   * state it leaves, or what it raises before writing anything.
   */
  function AddResult(h: Hasher, z: Compressor, s: RepoState, files: map<string, seq<byte>>, paths: seq<string>): (r: Result<RepoState, Failure>)
  {
    match ReadTracking(z, s)
    case Err(f) => Err(f)
    case Ok(t) =>
      var tracked := Keys(t.index) + t.previous;
      Ok(RepoState(StoredBlobs(h, z, files, tracked, s.objects, paths),
                   Some(IndexText(StagedIndex(h, files, tracked, t.index, paths))),
                   s.head))
  }

  /** `add` keeps the index a dictionary and adds exactly the untracked files among `paths` to its keys. */
  lemma {:induction false} StagedIndexKeys(h: Hasher, files: map<string, seq<byte>>, tracked: set<string>, idx: Entries, paths: seq<string>)
    requires UniqueKeys(idx)
    ensures UniqueKeys(StagedIndex(h, files, tracked, idx, paths))
    ensures Keys(StagedIndex(h, files, tracked, idx, paths)) == Keys(idx) + Staged(files, tracked, paths)
    decreases |paths|
  {
    if paths != [] {
      var p := paths[0];
      var next := if Stages(files, tracked, p) then Assign(idx, p, BlobSha(h, files[p])) else idx;
      StagedIndexKeys(h, files, tracked, next, paths[1..]);
      StagedCons(files, tracked, paths);
    }
  }

  /**
   * `add` stages each untracked file among `paths` under its blob's sha, and leaves every
   * other index entry as it was.
   */
  lemma {:induction false} StagedIndexLookup(h: Hasher, files: map<string, seq<byte>>, tracked: set<string>, idx: Entries, paths: seq<string>)
    ensures forall p :: p in Staged(files, tracked, paths) ==>
      Lookup(StagedIndex(h, files, tracked, idx, paths), p) == Some(BlobSha(h, files[p]))
    ensures forall p :: p !in Staged(files, tracked, paths) ==>
      Lookup(StagedIndex(h, files, tracked, idx, paths), p) == Lookup(idx, p)
    decreases |paths|
  {
    if paths != [] {
      var p := paths[0];
      var next := if Stages(files, tracked, p) then Assign(idx, p, BlobSha(h, files[p])) else idx;
      StagedIndexLookup(h, files, tracked, next, paths[1..]);
      StagedCons(files, tracked, paths);
    }
  }

  lemma StagedCons(files: map<string, seq<byte>>, tracked: set<string>, paths: seq<string>)
    requires paths != []
    ensures Staged(files, tracked, paths) ==
      Staged(files, tracked, paths[1..]) + (if Stages(files, tracked, paths[0]) then {paths[0]} else {})
  {
    assert paths == [paths[0]] + paths[1..];
  }

  /** The index `add` writes holds words only when the paths it stages are words. */
  lemma {:induction false} StagedWritable(h: Hasher, files: map<string, seq<byte>>, tracked: set<string>, idx: Entries, paths: seq<string>)
    requires Writable(idx)
    requires forall p :: p in paths && p in files ==> IsWord(p)
    ensures Writable(StagedIndex(h, files, tracked, idx, paths))
    decreases |paths|
  {
    if paths != [] {
      var p := paths[0];
      if Stages(files, tracked, p) {
        var sha := BlobSha(h, files[p]);
        assert forall k :: 0 <= k < |sha| ==> !IsSpace(sha[k]);
        AssignWritable(idx, p, sha);
      }
      var next := if Stages(files, tracked, p) then Assign(idx, p, BlobSha(h, files[p])) else idx;
      assert forall q :: q in paths[1..] ==> q in paths;
      StagedWritable(h, files, tracked, next, paths[1..]);
    }
  }

  /** The blobs `add` writes only add files: every object file already there keeps its contents. */
  lemma {:induction false} StoredBlobsKeep(h: Hasher, z: Compressor, files: map<string, seq<byte>>, tracked: set<string>, store: ObjectMap, paths: seq<string>)
    ensures forall q :: q in store ==>
      q in StoredBlobs(h, z, files, tracked, store, paths) && StoredBlobs(h, z, files, tracked, store, paths)[q] == store[q]
    decreases |paths|
  {
    if paths != [] {
      var p := paths[0];
      var next := if Stages(files, tracked, p) then WriteObject(h, z, store, Blob(files[p])).value.store else store;
      StoredBlobsKeep(h, z, files, tracked, next, paths[1..]);
    }
  }

  /** When no path is staged, `add` writes no object and leaves the index dictionary as it was. */
  lemma {:induction false} NothingStaged(h: Hasher, z: Compressor, files: map<string, seq<byte>>, tracked: set<string>, store: ObjectMap, idx: Entries, paths: seq<string>)
    requires Staged(files, tracked, paths) == {}
    ensures StagedIndex(h, files, tracked, idx, paths) == idx
    ensures StoredBlobs(h, z, files, tracked, store, paths) == store
    decreases |paths|
  {
    if paths != [] {
      StagedCons(files, tracked, paths);
      NothingStaged(h, z, files, tracked, store, idx, paths[1..]);
    }
  }

  /**
   * `add` is idempotent: running it again with the same files and paths finds every path it
   * staged the first time tracked, and changes neither the object store nor the index file.
   */
  lemma AddIdempotent(h: Hasher, z: Compressor, s: RepoState, files: map<string, seq<byte>>, paths: seq<string>)
    requires AddResult(h, z, s, files, paths).Ok?
    requires forall p :: p in paths && p in files ==> IsWord(p)
    ensures AddResult(h, z, AddResult(h, z, s, files, paths).value, files, paths) == AddResult(h, z, s, files, paths)
  {
    var t := ReadTracking(z, s).value;
    var tracked := Keys(t.index) + t.previous;
    var idx1 := StagedIndex(h, files, tracked, t.index, paths);
    var store1 := StoredBlobs(h, z, files, tracked, s.objects, paths);
    var s1 := AddResult(h, z, s, files, paths).value;
    assert s1 == RepoState(store1, Some(IndexText(idx1)), s.head);
    StagedIndexKeys(h, files, tracked, t.index, paths);
    StagedWritable(h, files, tracked, t.index, paths);
    IndexRoundTrip(idx1);
    StoredBlobsKeep(h, z, files, tracked, s.objects, paths);
    HeadTrackedKept(z, s, s1);
    assert ReadTracking(z, s1) == Ok(Tracking(idx1, t.previous));
    var tracked1 := Keys(idx1) + t.previous;
    assert Staged(files, tracked1, paths) == {};
    NothingStaged(h, z, files, tracked1, store1, idx1, paths);
  }

  /* ---------------- rm ---------------- */

  /** The index after `cmd_rm`'s loop, and whether it removed anything. */
  datatype Unstaging = Unstaging(index: Entries, removed: bool)

  function Unstage(idx: Entries, paths: seq<string>, removed: bool): Unstaging
    decreases |paths|
  {
    if paths == [] then Unstaging(idx, removed)
    else if paths[0] in Keys(idx) then Unstage(Remove(idx, paths[0]), paths[1..], true)
    else Unstage(idx, paths[1..], removed)
  }

  /** `cmd_rm`: the index file is rewritten only when some path was in it. */
  function RmResult(s: RepoState, paths: seq<string>): (r: Result<RepoState, Failure>)
  {
    match IndexOf(s.index)
    case Err(line) => Err(BadIndexLine(line))
    case Ok(idx) =>
      var u := Unstage(idx, paths, false);
      if u.removed then Ok(s.(index := Some(IndexText(u.index)))) else Ok(s)
  }

  /**
   * `rm` drops exactly the listed paths from the index, keeps every other entry, and reports a
   * removal exactly when one of the paths was staged.
   */
  lemma {:induction false} UnstageEffect(idx: Entries, paths: seq<string>, removed: bool)
    requires UniqueKeys(idx)
    ensures UniqueKeys(Unstage(idx, paths, removed).index)
    ensures Keys(Unstage(idx, paths, removed).index) == Keys(idx) - (set p | p in paths)
    ensures forall p :: p !in paths ==> Lookup(Unstage(idx, paths, removed).index, p) == Lookup(idx, p)
    ensures Unstage(idx, paths, removed).removed <==> removed || exists p :: p in paths && p in Keys(idx)
    decreases |paths|
  {
    if paths != [] {
      var p := paths[0];
      var tail := paths[1..];
      assert paths == [p] + tail;
      if p in Keys(idx) {
        UnstageEffect(Remove(idx, p), tail, true);
      } else {
        UnstageEffect(idx, tail, removed);
      }
    }
  }

  /** Removing the item a dictionary assignment appended gives the dictionary back. */
  lemma {:induction false} RemoveAppended(d: Entries, x: (string, string))
    requires x.0 !in Keys(d)
    ensures Remove(d + [x], x.0) == d
    decreases |d|
  {
    if d == [] {
      assert [] + [x] == [x];
    } else {
      assert (d + [x])[1..] == d[1..] + [x];
      RemoveAppended(d[1..], x);
    }
  }

  /** `rm` undoes `add` of a new path: the index dictionary is the one before the `add`. */
  lemma RmUndoesAdd(h: Hasher, files: map<string, seq<byte>>, tracked: set<string>, idx: Entries, p: string)
    requires Keys(idx) <= tracked && Stages(files, tracked, p)
    ensures Unstage(StagedIndex(h, files, tracked, idx, [p]), [p], false) == Unstaging(idx, true)
  {
    var added := Assign(idx, p, BlobSha(h, files[p]));
    assert StagedIndex(h, files, tracked, idx, [p]) == added;
    RemoveAppended(idx, (p, BlobSha(h, files[p])));
  }

  /* ---------------- commit ---------------- */

  /** `new_tracked`: each tracked path maps to its staged blob sha, or None. */
  type Merge = map<string, Option<string>>

  /** `for k in index: new_tracked[k] = index[k]`. */
  function MergeFrom(m: Merge, d: Entries): Merge
    decreases |d|
  {
    if d == [] then m else MergeFrom(m[d[0].0 := Some(d[0].1)], d[1..])
  }

  /** The previous commit's paths with None, overridden by the index's entries. */
  function Merged(prev: set<string>, idx: Entries): Merge
  {
    MergeFrom(map p | p in prev :: None, idx)
  }

  lemma {:induction false} MergeFromEffect(m: Merge, d: Entries)
    requires UniqueKeys(d)
    ensures MergeFrom(m, d).Keys == m.Keys + Keys(d)
    ensures forall p :: p in Keys(d) ==> MergeFrom(m, d)[p] == Lookup(d, p)
    ensures forall p :: p in m && p !in Keys(d) ==> MergeFrom(m, d)[p] == m[p]
    decreases |d|
  {
    if d != [] {
      MergeFromEffect(m[d[0].0 := Some(d[0].1)], d[1..]);
    }
  }

  /**
   * The merge `commit` builds tracks the previous commit's paths and the staged paths; a staged
   * path takes its index sha, any other path None. So the cleanup loop finds nothing to delete.
   */
  lemma MergedEffect(prev: set<string>, idx: Entries)
    requires UniqueKeys(idx)
    ensures Merged(prev, idx).Keys == prev + Keys(idx)
    ensures forall p :: p in Keys(idx) ==> Merged(prev, idx)[p] == Lookup(idx, p)
    ensures forall p :: p in prev && p !in Keys(idx) ==> Merged(prev, idx)[p] == None
  {
    MergeFromEffect(map p | p in prev :: None, idx);
  }

  const MODE: string := "100644"

  /** The tree entries for the paths `ks` in order, skipping the paths without a sha. */
  function EntriesOf(m: Merge, ks: seq<string>): seq<TreeEntry>
  {
    if ks == [] then []
    else
      var front := EntriesOf(m, ks[..|ks| - 1]);
      var k := ks[|ks| - 1];
      if k in m && m[k].Some? then front + [TreeEntry(MODE, k, m[k].value)] else front
  }

  /** The entries of the tree `commit` writes, in `sorted(new_tracked.items())` order. */
  function TreeEntriesOf(m: Merge): seq<TreeEntry>
  {
    EntriesOf(m, SortedOf(m.Keys))
  }

  lemma {:induction false} EntriesMembers(m: Merge, ks: seq<string>)
    ensures forall e :: e in EntriesOf(m, ks) <==> e.mode == MODE && e.path in ks && e.path in m && m[e.path] == Some(e.sha)
  {
    if ks != [] {
      var n := |ks| - 1;
      EntriesMembers(m, ks[..n]);
      assert ks == ks[..n] + [ks[n]];
    }
  }

  lemma {:induction false} EntriesSorted(m: Merge, ks: seq<string>)
    requires StrictlySorted(ks)
    ensures forall i, j :: 0 <= i < j < |EntriesOf(m, ks)| ==> Less(EntriesOf(m, ks)[i].path, EntriesOf(m, ks)[j].path)
  {
    if ks != [] {
      var n := |ks| - 1;
      var front := ks[..n];
      assert forall a :: 0 <= a < n ==> front[a] == ks[a];
      EntriesSorted(m, front);
      EntriesMembers(m, front);
      var es := EntriesOf(m, front);
      forall e | e in es ensures Less(e.path, ks[n]) {
        var a :| 0 <= a < n && front[a] == e.path;
      }
    }
  }

  /**
   * The tree `commit` writes: in strictly increasing path order, every entry has mode
   * `100644`, and its entries are exactly the tracked paths that have a sha, with that sha.
   */
  lemma TreeEntriesSpec(m: Merge)
    ensures forall e :: e in TreeEntriesOf(m) <==> e.mode == MODE && e.path in m && m[e.path] == Some(e.sha)
    ensures forall i, j :: 0 <= i < j < |TreeEntriesOf(m)| ==> Less(TreeEntriesOf(m)[i].path, TreeEntriesOf(m)[j].path)
  {
    SortedOfSorted(m.Keys);
    EntriesMembers(m, SortedOf(m.Keys));
    EntriesSorted(m, SortedOf(m.Keys));
  }

  /**
   * Only staged files reach the tree: its entries are exactly the index's items; a path the
   * previous commit tracked but the index does not hold is left out of it.
   */
  lemma CommitTreeEntries(prev: set<string>, idx: Entries)
    requires UniqueKeys(idx)
    ensures forall e :: e in TreeEntriesOf(Merged(prev, idx)) <==> e.mode == MODE && (e.path, e.sha) in idx
  {
    var m := Merged(prev, idx);
    MergedEffect(prev, idx);
    TreeEntriesSpec(m);
    forall e ensures e in TreeEntriesOf(m) <==> e.mode == MODE && (e.path, e.sha) in idx {
      if (e.path, e.sha) in idx {
        LookupItem(idx, e.path, e.sha);
      }
    }
  }

  /** In a dictionary, the value found under a key is the one its item holds. */
  lemma {:induction false} LookupItem(d: Entries, p: string, v: string)
    requires UniqueKeys(d) && (p, v) in d
    ensures Lookup(d, p) == Some(v)
    decreases |d|
  {
    if d[0] != (p, v) {
      assert (p, v) in d[1..];
      KeysHas(d[1..], IndexIn(d[1..], (p, v)));
      LookupItem(d[1..], p, v);
    }
  }

  function IndexIn<T(==)>(s: seq<T>, x: T): (k: nat)
    requires x in s
    ensures k < |s| && s[k] == x
  {
    if s[0] == x then 0 else 1 + IndexIn(s[1..], x)
  }

  /** `f"{USER} <{USER}@localhost>"`, with `USER` defaulting to `user`. */
  function Author(user: Option<string>): string
  {
    var u := if user.Some? then user.value else "user";
    u + " <" + u + "@localhost>"
  }

  /** `args.message or f"Commit at {now}"`: an empty message is replaced too. */
  function BaseMessage(message: string, now: string): string
  {
    if message != "" then message else "Commit at " + now
  }

  /** The commit `commit` writes: its tree, the head as parent, and the message with its trailer. */
  function NewCommit(treeSha: string, parent: string, paths: set<string>, message: string, now: string, user: Option<string>): Commit
  {
    Objects.Commit(treeSha, if parent == "" then None else Some(parent), Author(user), WithTrailer(BaseMessage(message, now), paths))
  }

  datatype Outcome = NothingToCommit | Committed(sha: string)

  /** What `commit` reports and the state it leaves. */
  datatype Step = Step(outcome: Outcome, after: RepoState)

  /**
   * The writes of `cmd_commit` once the merge `m` is known: the tree, then the commit, are
   * written, the ref is set to the commit's sha and a newline, and the index file is emptied.
   */
  function Record(h: Hasher, z: Compressor, s: RepoState, m: Merge, message: string, now: string, user: Option<string>): (r: Result<Step, Failure>)
    ensures r.Ok? ==> r.value.outcome.Committed?
    ensures r.Err? ==> r.error.Raised? && r.error.error.NonHexSha?
  {
    match WriteObject(h, z, s.objects, Tree(TreeEntriesOf(m)))
    case Err(e) => Err(Raised(e))
    case Ok(tw) =>
      var c := NewCommit(tw.sha, HeadSha(s.head), m.Keys, message, now, user);
      var cw := WriteObject(h, z, tw.store, CommitObject(c)).value;
      Ok(Step(Committed(cw.sha), RepoState(cw.store, Some(""), Some(cw.sha + "\n"))))
  }

  /** `cmd_commit` after the index and the head commit's paths are read: refused when the merge is empty. */
  function CommitFrom(h: Hasher, z: Compressor, s: RepoState, t: Tracking, message: string, now: string, user: Option<string>): Result<Step, Failure>
  {
    var m := Merged(t.previous, t.index);
    if m == map[] then Ok(Step(NothingToCommit, s)) else Record(h, z, s, m, message, now, user)
  }

  /** `cmd_commit`: read the index and the head commit's trailer, then commit their merge. */
  function CommitResult(h: Hasher, z: Compressor, s: RepoState, message: string, now: string, user: Option<string>): Result<Step, Failure>
  {
    match ReadTracking(z, s)
    case Err(f) => Err(f)
    case Ok(t) => CommitFrom(h, z, s, t, message, now, user)
  }

  /**
   * `commit` is refused, with nothing written, exactly when neither the previous commit nor
   * the index tracks a path; otherwise it commits, or raises on a staged sha that is not hex.
   */
  lemma CommitRefused(h: Hasher, z: Compressor, s: RepoState, t: Tracking, message: string, now: string, user: Option<string>)
    requires UniqueKeys(t.index)
    ensures CommitFrom(h, z, s, t, message, now, user) == Ok(Step(NothingToCommit, s)) <==> t.previous + Keys(t.index) == {}
    ensures var r := CommitFrom(h, z, s, t, message, now, user);
      r.Err? ==> r.error.Raised? && r.error.error.NonHexSha?
  {
    MergedEffect(t.previous, t.index);
    if t.previous + Keys(t.index) != {} {
      var p :| p in t.previous + Keys(t.index);
      assert p in Merged(t.previous, t.index);
    }
  }

  /** `strip()` of the ref file `commit` writes gives the sha back. */
  lemma StripRef(sha: string)
    requires IsHexSha(sha)
    ensures Strip(Translate(sha + "\n")) == sha
  {
    var s := sha + "\n";
    assert '\r' !in s by {
      forall k | 0 <= k < |s|
        ensures s[k] != '\r'
      {
        if k < |sha| {
          assert s[k] == sha[k];
        }
      }
    }
    TranslatePlain(s);
    assert !IsSpace(s[0]);
    assert TrimLeft(s) == s;
    assert s[..|s| - 1] == sha;
    assert TrimRight(s) == TrimRight(sha);
    StripPlain(sha);
  }

  /**
   * After a commit the ref names the new commit, the index file reads as the empty index, and
   * every object file that was there before is unchanged.
   */
  lemma CommitAdvances(h: Hasher, z: Compressor, s: RepoState, m: Merge, message: string, now: string, user: Option<string>)
    requires Record(h, z, s, m, message, now, user).Ok?
    ensures var st := Record(h, z, s, m, message, now, user).value;
      && HeadSha(st.after.head) == st.outcome.sha
      && PathOf(st.outcome.sha) in st.after.objects
      && IndexOf(st.after.index) == Ok([])
      && forall q :: q in s.objects ==> q in st.after.objects && st.after.objects[q] == s.objects[q]
  {
    var st := Record(h, z, s, m, message, now, user).value;
    StripRef(st.outcome.sha);
    assert FileLines(Translate("")) == [];
  }

  /**
   * The trailer of the new commit lists every tracked path: read back, it gives exactly the
   * paths of the merge, when the message holds no `[files]` of its own and every path can be
   * listed on a line of its own.
   */
  lemma CommitListsTracked(treeSha: string, parent: string, prev: set<string>, idx: Entries, message: string, now: string, user: Option<string>)
    requires UniqueKeys(idx)
    requires FindSub(BaseMessage(message, now), MARK) == -1
    requires forall p :: p in prev + Keys(idx) ==> ListablePath(p)
    ensures TrackedPaths(Some(NewCommit(treeSha, parent, Merged(prev, idx).Keys, message, now, user).message)) == prev + Keys(idx)
  {
    MergedEffect(prev, idx);
    TrailerRoundTrip(BaseMessage(message, now), prev + Keys(idx));
  }

  /** The merge loop of `cmd_commit`: the previous paths with None, then each index item. */
  method MergeIndex(prev: set<string>, idx: Entries) returns (merged: Merge)
    ensures merged == Merged(prev, idx)
  {
    merged := map p | p in prev :: None;
    for i := 0 to |idx|
      invariant MergeFrom(merged, idx[i..]) == Merged(prev, idx)
    {
      merged := merged[idx[i].0 := Some(idx[i].1)];
    }
  }

  /** The cleanup loop of `cmd_commit`: it deletes the paths neither in the index nor previously tracked. */
  method KeepTracked(merged: Merge, prev: set<string>, idx: Entries) returns (kept: Merge)
    requires UniqueKeys(idx) && merged == Merged(prev, idx)
    ensures kept == merged
  {
    MergedEffect(prev, idx);
    var keys := SortedOf(merged.Keys);
    kept := merged;
    for i := 0 to |keys|
      invariant kept == merged
    {
      var k := keys[i];
      if k !in Keys(idx) && k !in prev {
        kept := kept - {k};
      }
    }
  }

  /** The entries loop of `cmd_commit`: one `100644` entry per path with a sha, in path order. */
  method BuildEntries(merged: Merge) returns (entries: seq<TreeEntry>)
    ensures entries == TreeEntriesOf(merged)
  {
    var names := SortedOf(merged.Keys);
    entries := [];
    for i := 0 to |names|
      invariant entries == EntriesOf(merged, names[..i])
    {
      assert names[..i + 1][..i] == names[..i];
      var p := names[i];
      if merged[p].Some? {
        entries := entries + [TreeEntry(MODE, p, merged[p].value)];
      }
    }
    assert names[..|names|] == names;
  }

  /* ---------------- status ---------------- */

  /** What `status` lists: the staged paths and the untracked files, each sorted. */
  datatype Listing = Listing(staged: seq<string>, untracked: seq<string>)

  /** `cmd_status` with the work tree's files given as a set of relative paths. */
  function StatusResult(z: Compressor, s: RepoState, files: set<string>): (r: Result<Listing, Failure>)
  {
    match ReadTracking(z, s)
    case Err(f) => Err(f)
    case Ok(t) => Ok(Listing(SortedOf(Keys(t.index)), SortedOf(files - t.previous - Keys(t.index))))
  }

  /**
   * `status` lists the staged paths in order, and in order the files that neither the index
   * nor the head commit tracks: exactly the files `add` would stage.
   */
  lemma StatusListing(z: Compressor, s: RepoState, files: map<string, seq<byte>>)
    requires StatusResult(z, s, files.Keys).Ok?
    ensures var l := StatusResult(z, s, files.Keys).value; var t := ReadTracking(z, s).value;
      && StrictlySorted(l.staged) && StrictlySorted(l.untracked)
      && (forall p :: p in l.staged <==> p in Keys(t.index))
      && (forall p :: p in l.untracked <==> Stages(files, Keys(t.index) + t.previous, p))
  {
    var t := ReadTracking(z, s).value;
    SortedOfSorted(Keys(t.index));
    SortedOfSorted(files.Keys - t.previous - Keys(t.index));
  }

  /* ---------------- log ---------------- */

  /** `object_read` on a fixed store, as a function of the sha. */
  type Reader = string -> Result<Loaded, Error>

  function ReaderOf(store: ObjectMap, z: Compressor): Reader
  {
    sha => ReadObject(store, z, sha)
  }

  /** Whether the object named `sha` reads as a commit. */
  predicate IsCommit(read: Reader, sha: string)
  {
    read(sha).Ok? && read(sha).value.LoadedCommit?
  }

  /** The sha `log` moves to after the commit `sha`: its parent, or "" for none. */
  function NextSha(read: Reader, sha: string): string
  {
    if IsCommit(read, sha) && read(sha).value.commit.parent.Some? then read(sha).value.commit.parent.value else ""
  }

  /** Where `log` starts: the sha given, else the head ref as text mode reads it, stripped; None without either. */
  function LogStart(arg: string, head: Option<string>): Option<string>
  {
    if arg != "" then Some(arg) else if head.Some? then Some(HeadSha(head)) else None
  }

  /** The sha the walk looks at after visiting `visited` from `first`. */
  function Pending(read: Reader, first: string, visited: seq<string>): string
  {
    if visited == [] then first else NextSha(read, visited[|visited| - 1])
  }

  /** The names of the stored objects: each file's directory and name put together. */
  function Known(store: ObjectMap): set<string>
  {
    set p | p in store :: p.dir + p.file
  }

  lemma KnownHas(store: ObjectMap, sha: string)
    requires PathOf(sha) in store
    ensures sha in Known(store)
  {
    assert PathOf(sha).dir + PathOf(sha).file == sha;
  }

  /** Every sha that reads as an object names a stored object. */
  lemma ReadableKnown(store: ObjectMap, z: Compressor)
    ensures forall sha :: ReaderOf(store, z)(sha).Ok? ==> sha in Known(store)
  {
    forall sha | ReaderOf(store, z)(sha).Ok? ensures sha in Known(store) {
      KnownHas(store, sha);
    }
  }

  /** How `log` stops. */
  datatype LogEnd =
    | NoCommits                          // no sha given and no ref file
    | Ended                              // a commit without a parent, or an empty start
    | Revisited(sha: string)             // the `seen` guard stops a cycle
    | Broken(sha: string, error: Error)  // `object_read` raised
    | NotCommit(sha: string)             // a blob or tree has no `author`: the command raises

  /** `visited` is a walk from `first`: each visited sha is the one pending after those before it, and a commit. */
  predicate Chain(read: Reader, first: string, visited: seq<string>)
    decreases |visited|
  {
    visited == [] ||
      var n := |visited| - 1;
      Chain(read, first, visited[..n]) && visited[n] == Pending(read, first, visited[..n]) && IsCommit(read, visited[n])
  }

  /** A walk starts at `first`, visits only commits, and moves from each to its parent. */
  lemma {:induction false} ChainLinks(read: Reader, first: string, visited: seq<string>)
    requires Chain(read, first, visited)
    ensures visited != [] ==> visited[0] == first
    ensures forall i :: 0 <= i < |visited| ==> IsCommit(read, visited[i])
    ensures forall i :: 0 <= i < |visited| - 1 ==> NextSha(read, visited[i]) == visited[i + 1]
    decreases |visited|
  {
    if visited != [] {
      var n := |visited| - 1;
      var front := visited[..n];
      ChainLinks(read, first, front);
      assert forall i :: 0 <= i < n ==> front[i] == visited[i];
    }
  }

  /** Why the walk from `first` stopped after `visited`. */
  predicate Stopped(read: Reader, first: string, visited: seq<string>, end: LogEnd)
  {
    var next := Pending(read, first, visited);
    match end
    case NoCommits => false
    case Ended => next == ""
    case Revisited(x) => x == next && x in visited
    case Broken(x, e) => x == next && x != "" && x !in visited && read(x) == Err(e)
    case NotCommit(x) => x == next && x != "" && x !in visited && read(x).Ok? && !IsCommit(read, x)
  }

  predicate Distinct(visited: seq<string>)
  {
    forall i, j :: 0 <= i < j < |visited| ==> visited[i] != visited[j]
  }

  lemma ChainSnoc(read: Reader, first: string, visited: seq<string>, x: string)
    requires Chain(read, first, visited)
    requires x == Pending(read, first, visited) && IsCommit(read, x)
    ensures Chain(read, first, visited + [x])
    ensures Pending(read, first, visited + [x]) == NextSha(read, x)
  {
    assert (visited + [x])[..|visited|] == visited;
  }

  lemma DistinctSnoc(visited: seq<string>, x: string)
    requires Distinct(visited) && x !in visited
    ensures Distinct(visited + [x])
  {
  }

  /** What the `cmd_log` loop knows after visiting `visited` and collecting them in `seen`. */
  ghost predicate Walked(read: Reader, known: set<string>, first: string, seen: set<string>, visited: seq<string>)
  {
    && (forall v :: v in seen <==> v in visited)
    && |seen| == |visited| && seen <= known
    && Distinct(visited) && Chain(read, first, visited)
  }

  /** One more commit visited keeps the walk's facts and brings the walk closer to its end. */
  lemma Advance(read: Reader, known: set<string>, first: string, seen: set<string>, visited: seq<string>, sha: string)
    requires Walked(read, known, first, seen, visited)
    requires sha == Pending(read, first, visited) && sha !in seen && sha in known && IsCommit(read, sha)
    ensures Walked(read, known, first, seen + {sha}, visited + [sha])
    ensures Pending(read, first, visited + [sha]) == NextSha(read, sha)
    ensures |known - (seen + {sha})| < |known - seen|
  {
    CardPlusOne(seen, sha);
    CardMinusOne(known - seen, sha);
    assert known - (seen + {sha}) == known - seen - {sha};
    ChainSnoc(read, first, visited, sha);
    DistinctSnoc(visited, sha);
  }

  /**
   * The `cmd_log` loop from `first`: it stops, visits each sha at most once, and visits no
   * more shas than `known` holds when only the shas in `known` can be read.
   */
  method Walk(read: Reader, known: set<string>, first: string) returns (visited: seq<string>, end: LogEnd)
    requires forall sha :: read(sha).Ok? ==> sha in known
    ensures Distinct(visited) && |visited| <= |known|
    ensures Chain(read, first, visited) && Stopped(read, first, visited, end)
  {
    var sha := first;
    var seen: set<string> := {};
    visited := [];
    while sha != "" && sha !in seen
      invariant Walked(read, known, first, seen, visited)
      invariant sha == Pending(read, first, visited)
      decreases |known - seen|
    {
      CardSubset(seen, known);
      var o := read(sha);
      if o.Err? {
        return visited, Broken(sha, o.error);
      }
      if !o.value.LoadedCommit? {
        return visited, NotCommit(sha);
      }
      Advance(read, known, first, seen, visited, sha);
      seen := seen + {sha};
      visited := visited + [sha];
      sha := if o.value.commit.parent.Some? then o.value.commit.parent.value else "";
    }
    CardSubset(seen, known);
    end := if sha == "" then Ended else Revisited(sha);
  }

  lemma DropOne<T>(s: seq<T>, i: nat)
    requires i < |s|
    ensures s[i..] != [] && s[i..][0] == s[i] && s[i..][1..] == s[i + 1..]
  {
  }

  lemma CardPlusOne<T>(s: set<T>, x: T)
    requires x !in s
    ensures |s + {x}| == |s| + 1
  {
  }

  lemma CardMinusOne<T>(s: set<T>, x: T)
    requires x in s
    ensures |s - {x}| == |s| - 1
  {
    assert s == (s - {x}) + {x};
  }

  lemma CardSubset<T>(a: set<T>, b: set<T>)
    requires a <= b
    ensures |a| <= |b|
  {
    assert b == a + (b - a);
  }

  /* ---------------- the repository ---------------- */

  class Repository {
    var objects: ObjectMap
    var index: Option<string>
    var head: Option<string>
    const sha1: Hasher
    const zlib: Compressor

    function State(): RepoState
      reads this
    {
      RepoState(objects, index, head)
    }

    /** `GitRepository(path)` over a repository whose files hold `s`. */
    constructor (sha1: Hasher, zlib: Compressor, s: RepoState)
      ensures this.sha1 == sha1 && this.zlib == zlib && State() == s
    {
      this.sha1 := sha1;
      this.zlib := zlib;
      objects := s.objects;
      index := s.index;
      head := s.head;
    }

    /** `object_write`, with the `fmt` every caller passes for the object's kind. */
    method ObjectWrite(o: GitObject) returns (r: Result<string, Error>)
      modifies this`objects
      ensures var w := WriteObject(sha1, zlib, old(objects), o);
        && (w.Ok? ==> r == Ok(w.value.sha) && objects == w.value.store)
        && (w.Err? ==> r == Err(w.error) && objects == old(objects))
    {
      var data: seq<byte>;
      match o {
        case Blob(d) =>
          data := BlobSerialize(d);
        case Tree(es) =>
          var t := SerializeTree(es);
          if t.Err? {
            return Err(t.error);
          }
          data := t.value;
        case CommitObject(c) =>
          data := CommitBytes(c);
      }
      var full := Encode(Kind(o) + " " + Decimal(|data|)) + [NUL] + data;
      var sha := HexDigest(sha1, full);
      var p := PathOf(sha);
      if p !in objects {
        objects := objects[p := zlib.compress(full)];
      }
      return Ok(sha);
    }

    /** `object_read`. */
    method ObjectRead(sha: string) returns (r: Result<Loaded, Error>)
      ensures r == ReadObject(objects, zlib, sha)
    {
      var p := PathOf(sha);
      if p !in objects {
        return Err(ObjectNotFound(sha));
      }
      var full := zlib.decompress(objects[p]);
      if full.None? {
        return Err(CorruptData);
      }
      var f := ParseFrame(full.value);
      if f.Err? {
        return Err(f.error);
      }
      var tag, data := f.value.tag, f.value.payload;
      if tag == BLOB_TAG {
        return Ok(LoadedBlob(data));
      } else if tag == COMMIT_TAG {
        var c := DeserializeCommit(data);
        if c.Err? {
          return Err(c.error);
        }
        return Ok(LoadedCommit(c.value));
      } else if tag == TREE_TAG {
        var es := DeserializeTree(data);
        if es.Err? {
          return Err(es.error);
        }
        return Ok(LoadedTree(es.value));
      }
      return Err(UnknownObjectType(tag));
    }

    /** The head commit's trailer paths, as `cmd_add`, `cmd_commit` and `cmd_status` read them. */
    method ReadHeadTracked() returns (r: Result<set<string>, Failure>)
      ensures r == HeadTracked(zlib, State())
    {
      if head.None? {
        return Ok({});
      }
      var sha := Strip(Translate(head.value));
      if sha == "" {
        return Ok({});
      }
      var o := ObjectRead(sha);
      if o.Err? {
        return Err(Raised(o.error));
      }
      if !o.value.LoadedCommit? {
        return Err(Raised(NotACommit(sha)));
      }
      return Ok(TrackedPaths(o.value.commit.message));
    }

    /** `read_index` followed by the head commit's trailer paths. */
    method ReadTrackingState() returns (r: Result<Tracking, Failure>)
      ensures r == ReadTracking(zlib, State())
    {
      var idx := ReadIndex(index);
      if idx.Err? {
        return Err(BadIndexLine(idx.error));
      }
      IndexWritable(index);
      var prev := ReadHeadTracked();
      if prev.Err? {
        return Err(prev.error);
      }
      return Ok(Tracking(idx.value, prev.value));
    }

    /** `cmd_add`: stage each untracked file among `paths` and write the index. */
    method Add(files: map<string, seq<byte>>, paths: seq<string>) returns (failure: Option<Failure>)
      modifies this
      ensures var r := AddResult(sha1, zlib, old(State()), files, paths);
        && (r.Ok? ==> failure.None? && State() == r.value)
        && (r.Err? ==> failure == Some(r.error) && State() == old(State()))
    {
      var t := ReadTrackingState();
      if t.Err? {
        return Some(t.error);
      }
      var tracked := Keys(t.value.index) + t.value.previous;
      var idx := StageAll(files, tracked, t.value.index, paths);
      var text := WriteIndex(idx);
      index := Some(text);
      return None;
    }

    /** The loop of `cmd_add`: `add_path` on each of `paths`, writing a blob for each file it stages. */
    method StageAll(files: map<string, seq<byte>>, tracked: set<string>, idx0: Entries, paths: seq<string>) returns (idx: Entries)
      modifies this`objects
      ensures idx == StagedIndex(sha1, files, tracked, idx0, paths)
      ensures objects == StoredBlobs(sha1, zlib, files, tracked, old(objects), paths)
    {
      idx := idx0;
      var i := 0;
      while i < |paths|
        invariant 0 <= i <= |paths|
        invariant StagedIndex(sha1, files, tracked, idx, paths[i..]) == StagedIndex(sha1, files, tracked, idx0, paths)
        invariant StoredBlobs(sha1, zlib, files, tracked, objects, paths[i..]) == StoredBlobs(sha1, zlib, files, tracked, old(objects), paths)
      {
        DropOne(paths, i);
        var p := paths[i];
        if p in files && p !in tracked {
          var w := ObjectWrite(Blob(files[p]));
          idx := Assign(idx, p, w.value);
        }
        i := i + 1;
      }
    }

    /** `cmd_rm`: untrack each path that is in the index; rewrite the index only if one was. */
    method Rm(paths: seq<string>) returns (failure: Option<Failure>)
      modifies this`index
      ensures var r := RmResult(old(State()), paths);
        && (r.Ok? ==> failure.None? && State() == r.value)
        && (r.Err? ==> failure == Some(r.error) && State() == old(State()))
    {
      var read := ReadIndex(index);
      if read.Err? {
        return Some(BadIndexLine(read.error));
      }
      var idx := read.value;
      var removed := false;
      for i := 0 to |paths|
        invariant Unstage(idx, paths[i..], removed) == Unstage(read.value, paths, false)
      {
        if paths[i] in Keys(idx) {
          idx := Remove(idx, paths[i]);
          removed := true;
        }
      }
      if removed {
        var text := WriteIndex(idx);
        index := Some(text);
      }
      return None;
    }

    /** `cmd_commit`, with the message (empty when none is given), the time and `USER` as inputs. */
    method MakeCommit(message: string, now: string, user: Option<string>) returns (r: Result<Outcome, Failure>)
      modifies this
      ensures var c := CommitResult(sha1, zlib, old(State()), message, now, user);
        && (c.Ok? ==> r == Ok(c.value.outcome) && State() == c.value.after)
        && (c.Err? ==> r == Err(c.error) && State() == old(State()))
    {
      var t := ReadTrackingState();
      if t.Err? {
        return Err(t.error);
      }
      var idx, prev := t.value.index, t.value.previous;
      var merged := MergeIndex(prev, idx);
      merged := KeepTracked(merged, prev, idx);
      if merged == map[] {
        return Ok(NothingToCommit);
      }
      r := WriteCommit(merged, message, now, user);
    }

    /** The writes of `cmd_commit` for a non-empty merge: the tree, the commit, the ref and the index. */
    method WriteCommit(merged: Merge, message: string, now: string, user: Option<string>) returns (r: Result<Outcome, Failure>)
      modifies this
      ensures var c := Record(sha1, zlib, old(State()), merged, message, now, user);
        && (c.Ok? ==> r == Ok(c.value.outcome) && State() == c.value.after)
        && (c.Err? ==> r == Err(c.error) && State() == old(State()))
    {
      var parent := HeadSha(head);
      var entries := BuildEntries(merged);
      var tree := ObjectWrite(Tree(entries));
      if tree.Err? {
        return Err(Raised(tree.error));
      }
      var commit := NewCommit(tree.value, parent, merged.Keys, message, now, user);
      var written := ObjectWrite(CommitObject(commit));
      head := Some(written.value + "\n");
      var cleared := WriteIndex([]);
      index := Some(cleared);
      return Ok(Committed(written.value));
    }

    /** `cmd_status` over the given work-tree files. */
    method Status(files: set<string>) returns (r: Result<Listing, Failure>)
      ensures r == StatusResult(zlib, State(), files)
    {
      var t := ReadTrackingState();
      if t.Err? {
        return Err(t.error);
      }
      var staged := Keys(t.value.index);
      return Ok(Listing(SortedOf(staged), SortedOf(files - t.value.previous - staged)));
    }

    /**
     * `cmd_log`: from the given sha or the head, follow the parent links, visiting each sha at
     * most once and no more shas than there are object files, until a commit without a parent,
     * a revisit, or a read that fails.
     */
    method Log(arg: string) returns (visited: seq<string>, end: LogEnd)
      ensures end == NoCommits <==> LogStart(arg, head).None?
      ensures end == NoCommits ==> visited == []
      ensures Distinct(visited) && |visited| <= |Known(objects)|
      ensures end != NoCommits ==>
        Chain(ReaderOf(objects, zlib), LogStart(arg, head).value, visited) &&
        Stopped(ReaderOf(objects, zlib), LogStart(arg, head).value, visited, end)
    {
      var start := LogStart(arg, head);
      if start.None? {
        return [], NoCommits;
      }
      ReadableKnown(objects, zlib);
      visited, end := Walk(ReaderOf(objects, zlib), Known(objects), start.value);
    }
  }
}
