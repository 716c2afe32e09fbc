# minigit in Dafny

This project models the core of `minigit.py`, a small git-like content-addressed store, and proves
properties of that model. The model covers these parts:

- **The object codecs.**
  - A blob is its bytes.
  - A commit is UTF-8 text: `tree`/`parent`/`author`/`committer` lines, a blank line and the
    message. It is parsed back line by line.
  - A tree is a run of `"<mode> <path>\0"` headers, each followed by 20 raw hash bytes.
- **The object store.**
  - `object_write` frames a payload as `"<fmt> <len>\0" + data`, hashes the frame and stores it,
    compressed, under `sha[:2]/sha[2:]`. A file already at that path is never overwritten.
  - `object_read` splits the frame at the first space and the first NUL after it, then
    dispatches on the tag.
- **The index file.** Each line is `"<path> <sha>"`, and each line is read back with
  `strip().split()`.
- **The commands.** `add`, `rm`, `commit` and `status` reconcile the index, the head ref and
  the `[files]` trailer of the head commit's message. `log` follows `parent` links from the head
  and uses a `seen` set to guard against cycles.

There are nine modules, one per file.

| File | Module | What it holds |
|---|---|---|
| `wrappers.dfy` | `Wrappers` | `Option` and `Result` |
| `bytes.dfy` | `Bytes` | bytes, hex, decimal, and Python's `find`, slicing and `int()` |
| `utf8.dfy` | `Utf8` | strict UTF-8 encoding and decoding |
| `pystr.dfy` | `PyStr` | `splitlines`, `strip`, `split`, `join`, `find`, and the order `sorted` uses |
| `objects.dfy` | `Objects` | blob, tree and commit codecs |
| `store.dfy` | `Store` | frame, object paths, `object_write`, `object_read` |
| `index.dfy` | `IndexFile` | the index as an ordered dict, and its text format |
| `trailer.dfy` | `Trailer` | the `[files]` trailer, building it and reading it back |
| `repo.dfy` | `Repo` | the commands as specification functions, and the class `Repository` whose methods change its object map, index file and head ref |

Some external pieces are parameters.

- **SHA-1** (FIPS 180-4) is a `Hasher`: any function from bytes to 20 bytes.
- **zlib** (RFC 1950/1951) is a `Compressor` pair. `decompress` answers `None` where zlib raises.
  The round-trip lemmas assume `Lossless`: decompressing what was compressed gives it back.
- **The environment.** The `USER` variable, `datetime.now()` and the work-tree walk are
  arguments. `add` and `status` are given the work tree's files as a map or set of relative paths.

Each loop of the source that changes variables step by step is a method proved against a
specification function:

- `SerializeTree`, `ParseEntries` (the loop of `DeserializeTree`) and `DeserializeCommit`;
- `ReadIndex` and `WriteIndex`;
- `StageAll` (the `add` loop);
- `MergeIndex`, `KeepTracked` and `BuildEntries` (three of the loops of `commit`);
- `Walk` (the `log` loop).

The fourth loop of `commit` (minigit.py:282-288) only collects the stripped, non-empty lines after
`[files]` as the keys of `prev_tracked`, each with the value `None`. It is the set comprehension `Trailer.Listed`, which `Trailer.TrackedPaths`
uses.

The lemmas then prove what the source promises about those specification functions.

## Model

| member | source | states |
|---|---|---|
| Objects.EntryBytes | minigit.py:103-104 | an entry serialises exactly when its sha is valid hex |
| Objects.FirstNonHex | minigit.py:102-105 | names the first entry whose sha `bytes.fromhex` rejects; every entry before it converts; the tree serialises exactly when there is none |
| Objects.TreeBytesFails | minigit.py:102-105 | one entry with a non-hex sha makes the whole tree fail to serialise |
| Objects.SerializeTree | minigit.py:99-106 | the loop produces the entries' headers and raw hashes in order, or raises on the first non-hex sha |
| Objects.ReadEntryAt | minigit.py:113-117 | reading one entry succeeds with no NUL found (-1) or a NUL position in `[i, len(data))`, or fails only with a decode error or a header without a space |
| Objects.FindNul | minigit.py:113 | `data.find(b'\x00', i)` is the first NUL at or after `i`, or -1 when no NUL follows `i` |
| Objects.ReadEntryLayout | minigit.py:113-117 | a successful read stops at that first NUL. The bytes before it decode to the mode, a space and the path, with no space in the mode. The sha is the hex of the 20 bytes after the NUL |
| Objects.ParseTree | minigit.py:107-119 | parsing a tree payload fails only by a decode error, a header without a space, or a rewind that would loop for ever |
| Objects.DeserializeTree | minigit.py:107-119 | deserialising a tree computes the tree parse |
| Objects.ParseEntries | minigit.py:110-118 | the while loop, with each pass's read given, computes the parse loop from offset 0 |
| Objects.FlatParses | minigit.py:107-119 | parsing the concatenated bytes of well-formed entries gives exactly those entries back |
| Objects.TreeRoundTrip | minigit.py:99-119 | entries whose mode has no space or NUL, whose path has no NUL and whose sha is 40 lowercase hex characters serialise, and parse back to themselves |
| Objects.EntrySize | minigit.py:103-105 | each entry takes its mode's bytes, a space, its path's bytes, a NUL and 20 hash bytes |
| Objects.ParseCommit | minigit.py:75-76 | parsing a commit fails exactly when its bytes are not valid UTF-8 |
| Objects.DeserializeCommit | minigit.py:74-93 | the while loop computes the commit parse, stopping at the first blank line |
| Objects.CommitLinesSplit | minigit.py:65-73 | splitting a serialised commit into lines gives its header lines and then the message's lines |
| Objects.CommitHeadParse | minigit.py:76-93 | the header lines give back the tree and the author. The parent comes back as `None` when it was absent or empty. The committer line is skipped |
| Objects.CommitRoundTrip | minigit.py:65-93 | a commit whose header fields have no line break, and whose message has no line boundary other than `\n` and no trailing `\n`, parses back to its tree, parent, author and message |
| Bytes.Slice | minigit.py:174-176 | a Python slice equals the plain subsequence when its bounds are in range |
| Bytes.FindFrom | minigit.py:113 | the search answers -1 or an index at or after the start that holds the byte |
| Bytes.FindFromFirst | minigit.py:113 | that index is the first occurrence at or after the start, and -1 means there is none |
| Bytes.FindFirst | minigit.py:172-173 | `find` returns the first occurrence of the byte at or after the start |
| Bytes.FromHexToHex | minigit.py:104 | `bytes.fromhex` undoes `.hex()` |
| Bytes.ToHexFromHex | minigit.py:117 | `.hex()` undoes `bytes.fromhex` on lowercase hex of even length |
| Bytes.HexShaBytes | minigit.py:104 | a 40-character hex sha converts to exactly 20 bytes and back |
| Bytes.ParseDecimal | minigit.py:175 | `int()` reads back the decimal size that the frame header writes |
| Utf8.DecodeEncode | minigit.py:73-76 | decoding undoes `str.encode()` for every string |
| Utf8.EncodeAppend | minigit.py:103 | encoding distributes over concatenation |
| PyStr.SplitLinesJoin | minigit.py:73-76 | `splitlines` undoes a `\n`-join of lines that contain no line break |
| PyStr.JoinSplitLines | minigit.py:90 | rejoining a message's lines with `\n` gives the message back when its only line boundary is `\n` and it does not end with one |
| PyStr.SplitOnceAt | minigit.py:115 | `split(' ', 1)` cuts at the first space |
| PyStr.SplitOnceParts | minigit.py:115 | unpacking `split(' ', 1)` succeeds exactly when the text holds a space; the first part has no space, and the parts joined by it give the text back |
| PyStr.SplitWsPair | minigit.py:129 | `split()` of two words joined by a space gives those two words |
| PyStr.SortedOf | minigit.py:303 | `sorted` of a set lists each member exactly once |
| PyStr.SortedOfSorted | minigit.py:313 | the listing is strictly increasing in Python's string order |
| PyStr.SortedListingUnique | minigit.py:313 | two strictly sorted listings of the same members are equal |
| PyStr.LessTotal | minigit.py:303 | Python's string order is total and asymmetric |
| Store.HexDigest | minigit.py:157 | `hexdigest()` is 40 lowercase hex characters |
| Store.PathOf | minigit.py:158 | the storage path `sha[:2]/sha[2:]` puts the sha back together, and its directory has two characters |
| Store.Put | minigit.py:161-163 | a write adds the path and never overwrites a file already there |
| Store.Kind | minigit.py:153-156 | every `fmt` passed to `object_write` is ASCII without a space |
| Store.ParseFrame | minigit.py:172-176 | splitting a frame fails only when its size field is not an integer |
| Store.FrameParse | minigit.py:172-176 | the split finds the tag, the size and the payload, even when the payload holds spaces or NULs |
| Store.FrameRoundTrip | minigit.py:155-176 | splitting the frame `object_write` builds gives back the tag and the payload, with the size equal to the payload's length |
| Store.Decoded | minigit.py:177-184 | dispatching on the tag raises "Unknown object type" exactly for a tag other than `blob`, `commit` or `tree` |
| Store.ReadObject | minigit.py:166-171 | reading an absent object raises "not found"; a successful read found the file and decompressed it |
| Store.ReadUnknownTag | minigit.py:177-184 | a stored frame with any other tag is read as the "Unknown object type" error |
| Store.PayloadRoundTrip | minigit.py:153-182 | decoding a well-formed object's payload under its own kind gives the object back |
| Store.ObjectRoundTrip | minigit.py:153-184 | reading a storable object right after writing it gives `Restored(o)`, given a lossless compressor and a store consistent at its path. A blob or tree comes back unchanged. A commit comes back with its tree, author and message, the committer line is dropped, and an empty parent reads back as `None`. Storable means: tree entries well formed, and commit fields and message free of stray line breaks |
| Store.WriteObject | minigit.py:153-164 | the sha is the digest of the frame, and the store gains exactly its path. Files already present are unchanged; a new file holds the compressed frame. A tree with a non-hex sha raises |
| Store.WriteTwice | minigit.py:157-164 | writing the same object again returns the same sha and leaves the store unchanged |
| Store.PutConsistent | minigit.py:157-163 | writes keep every stored file decompressing to a frame whose digest is its own sha |
| Store.StoredUnderOwnDigest | minigit.py:157-171 | in a store built by writes, each file decompresses, and the frame's digest is the sha it is stored under |
| IndexFile.Lookup | minigit.py:257 | a path is found exactly when it is a key, with the value stored for it |
| IndexFile.Assign | minigit.py:242 | `d[path] = sha` appends a new key at the end. For an existing key in a dict, every item stays at its position and only that key's value changes. The key then maps to the sha, other keys are unchanged and keys stay unique |
| IndexFile.Remove | minigit.py:258 | `del d[path]` leaves a dict without that key unchanged. In a dict holding it at position `k`, the result is the items before `k` followed by the items after `k`, in order. Other keys keep their values and keys stay unique |
| IndexFile.WriteIndex | minigit.py:133-137 | the loop writes one `"<path> <sha>\n"` line per entry, in dict order |
| IndexFile.Translate | minigit.py:127 | text read in text mode holds no `\r` |
| IndexFile.TranslateBreak | minigit.py:127 | after text without `\r`, a `\r\n` pair and a lone `\r` each read as a single `\n` |
| IndexFile.TranslatePlain | minigit.py:127 | text without `\r` reads back unchanged |
| IndexFile.NextNewline | minigit.py:128 | finds the end of the current line of the file |
| IndexFile.ParseLines | minigit.py:128-130 | reading the lines keeps keys unique, and fails only on one of the file's lines |
| IndexFile.IndexOf | minigit.py:123-131 | an absent index file is the empty dict, and a read index has unique keys |
| IndexFile.ReadIndex | minigit.py:123-131 | the loop computes the index read |
| IndexFile.IndexWritable | minigit.py:123-131 | every path and sha read from the index is a non-empty word without whitespace |
| IndexFile.AssignWritable | minigit.py:242 | assigning a word path to a word sha keeps the index writable |
| IndexFile.IndexTextCons | minigit.py:136-137 | the index file is the first entry's line followed by the others' |
| IndexFile.LinesOfText | minigit.py:127-137 | the written file has no `\r`, and its lines are the entries' lines |
| IndexFile.ParseLinesOf | minigit.py:128-130 | reading the lines of written entries appends exactly those entries |
| IndexFile.IndexRoundTrip | minigit.py:123-137 | reading the index back after writing it gives the same dict, in the same order, when the keys are unique and every path and sha is a non-empty word without whitespace |
| Trailer.TrackedPaths | minigit.py:223-225 | a message without `[files]`, or a commit without a message, tracks nothing. Every tracked path is non-empty and stripped |
| Trailer.StripIdempotent | minigit.py:225 | stripping twice is stripping once |
| Trailer.ListedPaths | minigit.py:225 | the listed lines read back as exactly the listed paths |
| Trailer.ListedSorted | minigit.py:313 | the sorted listing of a set of paths reads back as that set |
| Trailer.TrailerLines | minigit.py:223-225 | the trailer appended to a message without `[files]` is what the reader parses |
| Trailer.TrailerRoundTrip | minigit.py:223-225 | the paths read back from a trailer are exactly the paths written into it |
| Repo.HeadTracked | minigit.py:215-225 | no ref, or a ref that reads in text mode as blank, tracks nothing. A successful read found the head commit in the store. The tracked paths are stripped and non-empty |
| Repo.StripRef | minigit.py:316-317 | the ref file `commit` writes, read back in text mode and stripped, is the commit's sha |
| Repo.ReadTracking | minigit.py:213-225 | the index read by the commands can be written back |
| Repo.HeadTrackedKept | minigit.py:221-225 | adding objects without changing the ref leaves the head commit's tracked paths unchanged |
| Repo.BlobSha | minigit.py:240-241 | a staged blob's sha is 40 lowercase hex characters |
| Repo.StagedIndexKeys | minigit.py:226-245 | `add` keeps the index a dict, and adds to its keys exactly the given files not yet tracked |
| Repo.StagedIndexLookup | minigit.py:236-242 | each newly staged path maps to its blob's sha, and every other entry keeps its value |
| Repo.StagedWritable | minigit.py:242-246 | staging word paths keeps the index writable |
| Repo.StoredBlobsKeep | minigit.py:241 | staging never changes an object already stored |
| Repo.NothingStaged | minigit.py:236-237 | when every given path is already tracked or is not a file, the index and the store are unchanged |
| Repo.AddIdempotent | minigit.py:211-246 | running `add` a second time with the same files and paths changes nothing |
| Repo.UnstageEffect | minigit.py:254-260 | `rm` drops exactly the given paths, keeps every other entry, and reports a removal exactly when a given path was staged |
| Repo.RemoveAppended | minigit.py:258 | deleting a key that was just appended restores the dict |
| Repo.RmUndoesAdd | minigit.py:242-258 | removing a path right after adding it gives the index back |
| Repo.MergeFromEffect | minigit.py:292-293 | the loop over the index adds its keys, overriding their values |
| Repo.MergedEffect | minigit.py:291-293 | the merged keys are the previous trailer paths together with the index keys. An index sha overrides; a path only in the trailer has no sha |
| Repo.MergeIndex | minigit.py:291-293 | the loop computes the merge |
| Repo.KeepTracked | minigit.py:295-297 | the cleanup loop deletes nothing |
| Repo.EntriesMembers | minigit.py:303-307 | an entry is listed exactly when its path has a sha, and its mode is `100644` |
| Repo.EntriesSorted | minigit.py:303 | the entries of a sorted key list are sorted by path |
| Repo.TreeEntriesSpec | minigit.py:302-307 | the tree lists, sorted by path with mode `100644`, exactly the merged paths that have a sha |
| Repo.BuildEntries | minigit.py:302-307 | the loop computes those tree entries |
| Repo.CommitTreeEntries | minigit.py:291-307 | the new tree holds exactly the index's entries: trailer-only paths are skipped |
| Repo.CommitListsTracked | minigit.py:311-314 | the new commit's trailer reads back as exactly the merged keys |
| Repo.Record | minigit.py:308-319 | once the merge is non-empty, the commit either succeeds or raises only on a non-hex sha |
| Repo.CommitRefused | minigit.py:298-300 | the commit is refused, with nothing written and no ref change, exactly when the merged set is empty. Otherwise it can raise only on a non-hex sha |
| Repo.CommitAdvances | minigit.py:314-319 | a successful commit leaves its sha in the ref and its object in the store. The index is then empty and no old object changes |
| Repo.StatusListing | minigit.py:321-350 | `status` lists the staged paths sorted. It also lists, sorted, exactly the files that neither the index nor the head commit tracks, which are the files `add` would stage |
| Repo.ReadableKnown | minigit.py:371 | every sha that can be read names a stored object |
| Repo.ChainLinks | minigit.py:367-378 | the visited shas start at the first sha, are all commits, and each one is the parent of the one before it |
| Repo.Advance | minigit.py:368-378 | one iteration keeps the walk's invariant and shrinks the set of unseen stored shas |
| Repo.Walk | minigit.py:367-378 | the loop terminates and visits no sha twice, at most as many as the store holds. The visited shas form a parent chain. It stops at an empty sha, a revisit, a read error or a non-commit |
| Repo.Repository.ObjectWrite | minigit.py:153-164 | the object map is replaced by the write's result, or left unchanged when the write raises |
| Repo.Repository.ObjectRead | minigit.py:166-184 | reads the current object map |
| Repo.Repository.ReadHeadTracked | minigit.py:215-225 | reads the head commit's tracked paths from the current state |
| Repo.Repository.ReadTrackingState | minigit.py:213-225 | reads the index and the tracked paths from the current state |
| Repo.Repository.StageAll | minigit.py:226-245 | the loop stages the untracked files into the index and stores their blobs |
| Repo.Repository.Add | minigit.py:211-246 | the new state is the one `add` specifies. On an error the state is unchanged |
| Repo.Repository.Rm | minigit.py:248-264 | the new state is the one `rm` specifies: the index file is rewritten only when something was removed |
| Repo.Repository.WriteCommit | minigit.py:308-319 | writes the tree and the commit, sets the ref and empties the index, as `commit` specifies |
| Repo.Repository.MakeCommit | minigit.py:266-319 | the outcome and the new state are the ones `commit` specifies. On an error or refusal the state is unchanged |
| Repo.Repository.Status | minigit.py:321-350 | the listing is the one `status` specifies for the current state |
| Repo.Repository.Log | minigit.py:352-378 | there are no commits exactly when no sha is given and there is no ref. Otherwise the walk from the given sha or the ref visits distinct commits along parent links, at most one per stored object, and says why it stopped |

## Left out

**Left to the environment**
- `graph.py`, argument parsing in `main`, and all printed output are not modelled.
- The commands `init`, `hash-object`, `cat-file` and `ls-objects` are not modelled. They only set up directories, call `object_write` and `object_read` (both modelled), or print.
- SHA-1 and zlib are parameters. The only property assumed of zlib is that decompression undoes compression.
- Directory walks become given inputs: `add` takes a map from relative paths to file contents, and `status` takes a set of paths. `os.path.relpath` is the identity on those paths.
- Anything in `add`'s argument list that is not a file in the map is skipped, as a path that is neither a file nor a directory is skipped by the source.
- `os.getenv('USER')` and `datetime.now()` are parameters of the commit: an optional user and a timestamp string.
- The message `""` stands for both an absent and an empty `-m` argument. The source treats both the same.

**Modelled differently from the source**
- Objects.ParseTree: a tree payload whose last entry has no NUL makes the source rewind to offset 20, and it may then loop for ever. The model reports a second rewind as the error `TreeParseLoops` instead of diverging.
- Repo.KeepTracked: the cleanup loop is walked in sorted key order rather than insertion order. It deletes nothing in either order.
- Repo.Repository.Rm: the "is not tracked" message is not modelled. Only the index change is.

**Not proved**
- Repo.CommitAdvances: it is not proved at this level that the new head commit reads back from the store. That follows from `Store.ObjectRoundTrip` under a consistent store.
- Repo.Repository.Log: the contract is stated through the reader `ReaderOf(objects, zlib)` rather than the store directly. Termination is proved for the stored shas only, as the measure.

**Commit reconciliation as written**
- Commit refusal: the source refuses a commit only when the merged set of paths is empty (minigit.py:298-300), so a commit whose paths all come from the previous trailer is written with an empty tree (Repo.CommitRefused, Repo.CommitTreeEntries).
- Trailer-only paths: a path tracked only through the previous commit's trailer has no sha, so it is dropped from the new tree (minigit.py:286-288, 304-305; Repo.CommitTreeEntries) while the new trailer still lists it (minigit.py:313; Repo.CommitListsTracked). The model keeps this as written rather than carrying the previous sha forward.
