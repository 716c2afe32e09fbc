/**
 * The index file `.minigit/index`: one line `"<path> <sha>"` for each staged path, written in the
 * order of the dictionary it comes from, and read back by splitting every line on whitespace.
 * The file is text: reading it turns `\r\n` and a lone `\r` into `\n`.
 */
module IndexFile {
  import opened Wrappers
  import opened PyStr

  /** A Python dict from path to sha: its items in insertion order. */
  type Entries = seq<(string, string)>

  function Keys(d: Entries): set<string>
  {
    if d == [] then {} else {d[0].0} + Keys(d[1..])
  }

  /** No path occurs twice, as in any dictionary. */
  predicate UniqueKeys(d: Entries)
  {
    d == [] || (d[0].0 !in Keys(d[1..]) && UniqueKeys(d[1..]))
  }

  lemma {:induction false} KeysHas(d: Entries, a: nat)
    requires a < |d|
    ensures d[a].0 in Keys(d)
  {
    if a > 0 {
      assert d[1..][a - 1] == d[a];
      KeysHas(d[1..], a - 1);
    }
  }


  lemma ConsSnoc<T>(d: seq<T>, y: T)
    requires d != []
    ensures [d[0]] + (d[1..] + [y]) == d + [y]
  {
    assert d == [d[0]] + d[1..];
  }

  lemma Tail<T>(x: T, d: seq<T>)
    ensures ([x] + d)[0] == x && ([x] + d)[1..] == d
  {
  }

  /** `d.get(path)`. */
  function Lookup(d: Entries, path: string): (r: Option<string>)
    ensures r.Some? <==> path in Keys(d)
    ensures r.Some? ==> (path, r.value) in d
  {
    if d == [] then None
    else if d[0].0 == path then Some(d[0].1)
    else Lookup(d[1..], path)
  }

  /** `d[path] = sha`: a present key keeps its place and takes the new value; a new key goes last. */
  function Assign(d: Entries, path: string, sha: string): (r: Entries)
    ensures path in Keys(d) ==> |r| == |d|
    ensures path !in Keys(d) ==> r == d + [(path, sha)]
    ensures Keys(r) == Keys(d) + {path}
    ensures Lookup(r, path) == Some(sha)
    ensures forall p :: p != path ==> Lookup(r, p) == Lookup(d, p)
    ensures UniqueKeys(d) ==> UniqueKeys(r)
    ensures UniqueKeys(d) && path in Keys(d) ==>
      forall a :: 0 <= a < |d| ==> r[a] == (if d[a].0 == path then (path, sha) else d[a])
  {
    if d == [] then [(path, sha)]
    else if d[0].0 == path then
      Tail((path, sha), d[1..]);
      KeyFirstOnly(d);
      [(path, sha)] + d[1..]
    else
      var r := Assign(d[1..], path, sha);
      Tail(d[0], r);
      ConsSnoc(d, (path, sha));
      [d[0]] + r
  }

  /** `del d[path]`: the other items keep their order. */
  function Remove(d: Entries, path: string): (r: Entries)
    ensures Keys(r) <= Keys(d)
    ensures UniqueKeys(d) ==> Keys(r) == Keys(d) - {path} && UniqueKeys(r)
    ensures forall p :: p != path ==> Lookup(r, p) == Lookup(d, p)
    ensures path !in Keys(d) ==> r == d
    ensures UniqueKeys(d) ==> forall k :: 0 <= k < |d| && d[k].0 == path ==> r == d[..k] + d[k + 1..]
  {
    if d == [] then []
    else if d[0].0 == path then
      KeyFirstOnly(d);
      assert d[..0] + d[1..] == d[1..];
      d[1..]
    else
      var r := Remove(d[1..], path);
      Tail(d[0], r);
      HeadTail(d);
      RemoveCons(d, path, r);
      [d[0]] + r
  }

  /** In a dictionary, the first item's key occurs nowhere after it. */
  lemma KeyFirstOnly(d: Entries)
    requires d != []
    ensures UniqueKeys(d) ==> forall a :: 1 <= a < |d| ==> d[a].0 != d[0].0
  {
    forall a | 1 <= a < |d| && UniqueKeys(d)
      ensures d[a].0 != d[0].0
    {
      assert d[1..][a - 1] == d[a];
      KeysHas(d[1..], a - 1);
    }
  }


  /** Removing from the tail at `k - 1` is removing from the whole at `k`, once the head is put back. */
  lemma RemoveCons(d: Entries, path: string, r: Entries)
    requires d != [] && d[0].0 != path
    requires UniqueKeys(d[1..]) ==>
      forall k :: 0 <= k < |d[1..]| && d[1..][k].0 == path ==> r == d[1..][..k] + d[1..][k + 1..]
    requires path !in Keys(d[1..]) ==> r == d[1..]
    ensures path !in Keys(d) ==> [d[0]] + r == d
    ensures UniqueKeys(d) ==> forall k :: 0 <= k < |d| && d[k].0 == path ==> [d[0]] + r == d[..k] + d[k + 1..]
  {
    var t := d[1..];
    if path !in Keys(d) {
      assert path !in Keys(t);
      HeadTail(d);
    }
    if UniqueKeys(d) {
      assert UniqueKeys(t);
      forall k | 0 <= k < |d| && d[k].0 == path
        ensures [d[0]] + r == d[..k] + d[k + 1..]
      {
        assert t[k - 1] == d[k];
        ConsCut(d, k);
      }
    }
  }

  /** Cutting item `k` out of `d` is cutting item `k - 1` out of its tail, behind the head. */
  lemma ConsCut<T>(d: seq<T>, k: nat)
    requires 1 <= k < |d|
    ensures d[..k] + d[k + 1..] == [d[0]] + (d[1..][..k - 1] + d[1..][k..])
  {
    assert d[..k] == [d[0]] + d[1..][..k - 1];
    assert d[k + 1..] == d[1..][k..];
  }

  /* ---------------- writing ---------------- */

  function Line(item: (string, string)): string
  {
    item.0 + " " + item.1 + "\n"
  }

  /** The file `write_index` leaves: one line per item, in dictionary order. */
  function IndexText(d: Entries): string
  {
    if d == [] then "" else IndexText(d[..|d| - 1]) + Line(d[|d| - 1])
  }

  /** `write_index`: the `for path, sha in index.items()` loop of `f.write` calls. */
  method WriteIndex(d: Entries) returns (text: string)
    ensures text == IndexText(d)
  {
    text := "";
    for i := 0 to |d|
      invariant text == IndexText(d[..i])
    {
      assert d[..i + 1][..i] == d[..i];
      text := text + Line(d[i]);
    }
    assert d[..|d|] == d;
  }

  /* ---------------- reading ---------------- */

  /** Universal newlines: the text a file opened for reading yields. */
  function Translate(t: string): (r: string)
    ensures '\r' !in r
    decreases |t|
  {
    if t == [] then []
    else if t[0] == '\r' then
      if |t| > 1 && t[1] == '\n' then "\n" + Translate(t[2..]) else "\n" + Translate(t[1..])
    else [t[0]] + Translate(t[1..])
  }

  /** After text without `\r`, a `\r\n` pair and a lone `\r` each read as one `\n`. */
  lemma {:induction false} TranslateBreak(s: string, t: string)
    requires '\r' !in s
    ensures Translate(s + "\r\n" + t) == s + "\n" + Translate(t)
    ensures t == [] || t[0] != '\n' ==> Translate(s + "\r" + t) == s + "\n" + Translate(t)
    decreases |s|
  {
    if s == [] {
      assert s + "\r\n" + t == "\r\n" + t && ("\r\n" + t)[2..] == t;
      assert s + "\r" + t == "\r" + t && ("\r" + t)[1..] == t;
    } else {
      assert (s + "\r\n" + t)[1..] == s[1..] + "\r\n" + t;
      assert (s + "\r" + t)[1..] == s[1..] + "\r" + t;
      TranslateBreak(s[1..], t);
      assert [s[0]] + (s[1..] + "\n" + Translate(t)) == s + "\n" + Translate(t);
    }
  }

  /** The position of the first `\n` at or after `k`, or `|t|`. */
  function NextNewline(t: string, k: nat): (r: nat)
    requires k <= |t|
    ensures k <= r <= |t| && (r < |t| ==> t[r] == '\n')
    ensures forall m :: k <= m < r ==> t[m] != '\n'
    decreases |t| - k
  {
    if k == |t| || t[k] == '\n' then k else NextNewline(t, k + 1)
  }

  /** The lines `for line in f` yields, without their `\n`; a final line may lack one. */
  function FileLines(t: string): (r: seq<string>)
    decreases |t|
  {
    if t == [] then []
    else
      var k := NextNewline(t, 0);
      if k == |t| then [t] else [t[..k]] + FileLines(t[k + 1..])
  }

  /** The loop of `read_index` over the remaining lines: each must split into exactly two words. */
  function ParseLines(lines: seq<string>, acc: Entries): (r: Result<Entries, string>)
    ensures UniqueKeys(acc) && r.Ok? ==> UniqueKeys(r.value)
    ensures r.Err? ==> r.error in lines
    decreases |lines|
  {
    if lines == [] then Ok(acc)
    else
      var parts := SplitWs(Strip(lines[0]));
      if |parts| != 2 then Err(lines[0])
      else ParseLines(lines[1..], Assign(acc, parts[0], parts[1]))
  }

  /**
   * `read_index`: an absent file is the empty index; otherwise the items of its lines, or the
   * first line that does not hold exactly two words (where the unpacking raises).
   */
  function IndexOf(file: Option<string>): (r: Result<Entries, string>)
    ensures file.None? ==> r == Ok([])
    ensures r.Ok? ==> UniqueKeys(r.value)
  {
    if file.None? then Ok([]) else ParseLines(FileLines(Translate(file.value)), [])
  }

  method ReadIndex(file: Option<string>) returns (r: Result<Entries, string>)
    ensures r == IndexOf(file)
  {
    if file.None? {
      return Ok([]);
    }
    var lines := FileLines(Translate(file.value));
    var index: Entries := [];
    var i := 0;
    while i < |lines|
      invariant 0 <= i <= |lines|
      invariant ParseLines(lines[i..], index) == ParseLines(lines, [])
    {
      var parts := SplitWs(Strip(lines[i]));
      if |parts| != 2 {
        return Err(lines[i]);
      }
      index := Assign(index, parts[0], parts[1]);
      i := i + 1;
    }
    return Ok(index);
  }

  /* ---------------- round trip ---------------- */

  /** A path or sha the index carries: non-empty, no whitespace. */
  predicate IsWord(s: string) { s != [] && NoSpace(s) }

  predicate Writable(d: Entries)
  {
    UniqueKeys(d) && forall a :: 0 <= a < |d| ==> IsWord(d[a].0) && IsWord(d[a].1)
  }

  /** `d[path] = sha` keeps every path and sha a word when the new ones are. */
  lemma {:induction false} AssignWritable(d: Entries, path: string, sha: string)
    requires Writable(d) && IsWord(path) && IsWord(sha)
    ensures Writable(Assign(d, path, sha))
    decreases |d|
  {
    if d != [] && d[0].0 != path {
      var tail := d[1..];
      assert forall a :: 0 <= a < |tail| ==> tail[a] == d[a + 1];
      AssignWritable(tail, path, sha);
      var r := Assign(tail, path, sha);
      assert Assign(d, path, sha) == [d[0]] + r;
      assert forall a :: 0 < a < |r| + 1 ==> ([d[0]] + r)[a] == r[a - 1];
    }
  }

  lemma {:induction false} ParsedWritable(lines: seq<string>, acc: Entries)
    requires Writable(acc) && ParseLines(lines, acc).Ok?
    ensures Writable(ParseLines(lines, acc).value)
    decreases |lines|
  {
    if lines != [] {
      var parts := SplitWs(Strip(lines[0]));
      SplitWsWords(Strip(lines[0]));
      AssignWritable(acc, parts[0], parts[1]);
      ParsedWritable(lines[1..], Assign(acc, parts[0], parts[1]));
    }
  }

  /** Whatever `read_index` returns holds words only, so writing it and reading it back gives it again. */
  lemma IndexWritable(file: Option<string>)
    requires IndexOf(file).Ok?
    ensures Writable(IndexOf(file).value)
  {
    if file.Some? {
      ParsedWritable(FileLines(Translate(file.value)), []);
    }
  }

  /** The lines of an index file, front to back. */
  function LinesOf(d: Entries): seq<string>
  {
    if d == [] then [] else [d[0].0 + " " + d[0].1] + LinesOf(d[1..])
  }

  lemma {:induction false} IndexTextCons(x: (string, string), d: Entries)
    ensures IndexText([x] + d) == Line(x) + IndexText(d)
    decreases |d|
  {
    if d == [] {
      assert [x] + d == [x];
      assert [x][..0] == [];
    } else {
      var front := d[..|d| - 1];
      assert ([x] + d)[..|d|] == [x] + front;
      IndexTextCons(x, front);
    }
  }

  lemma {:induction false} TranslatePlain(t: string)
    requires '\r' !in t
    ensures Translate(t) == t
    decreases |t|
  {
    if t != [] {
      assert t[0] in t;
      assert forall c :: c in t[1..] ==> c in t;
      TranslatePlain(t[1..]);
    }
  }

  lemma WordChars(w: string)
    requires IsWord(w)
    ensures '\r' !in w && '\n' !in w
  {
    forall k | 0 <= k < |w| ensures w[k] != '\r' && w[k] != '\n' {
      assert !IsSpace(w[k]);
    }
  }

  /** The first line of `l + "\n" + rest` is `l` when `l` holds no `\n`. */
  lemma FirstLine(l: string, rest: string)
    requires '\n' !in l
    ensures FileLines(l + "\n" + rest) == [l] + FileLines(rest)
  {
    var t := l + "\n" + rest;
    assert t[|l|] == '\n';
    forall m | 0 <= m < |l| ensures t[m] != '\n' {
      assert t[m] == l[m];
    }
    assert NextNewline(t, 0) == |l|;
    assert t[..|l|] == l && t[|l| + 1..] == rest;
  }

  lemma {:induction false} LinesOfText(d: Entries)
    requires forall a :: 0 <= a < |d| ==> IsWord(d[a].0) && IsWord(d[a].1)
    ensures '\r' !in IndexText(d)
    ensures FileLines(IndexText(d)) == LinesOf(d)
    decreases |d|
  {
    if d != [] {
      var x := d[0];
      assert d == [x] + d[1..];
      IndexTextCons(x, d[1..]);
      LinesOfText(d[1..]);
      WordChars(x.0);
      WordChars(x.1);
      var l := x.0 + " " + x.1;
      var rest := IndexText(d[1..]);
      assert Line(x) + rest == l + "\n" + rest;
      FirstLine(l, rest);
    }
  }

  /** `(p + " " + s).strip().split()` gives back the two words. */
  lemma SplitWords(p: string, s: string)
    requires IsWord(p) && IsWord(s)
    ensures SplitWs(Strip(p + " " + s)) == [p, s]
  {
    var l := p + " " + s;
    assert l[0] == p[0] && l[|l| - 1] == s[|s| - 1];
    StripPlain(l);
    SplitWsPair(p, s);
  }

  lemma {:induction false} ParseLinesOf(d: Entries, acc: Entries)
    requires Writable(d)
    requires forall a :: 0 <= a < |d| ==> d[a].0 !in Keys(acc)
    ensures ParseLines(LinesOf(d), acc) == Ok(acc + d)
    decreases |d|
  {
    if d == [] {
      assert acc + d == acc;
    } else {
      var x := d[0];
      var lines := LinesOf(d);
      assert lines[0] == x.0 + " " + x.1 && lines[1..] == LinesOf(d[1..]);
      SplitWords(x.0, x.1);
      var acc' := Assign(acc, x.0, x.1);
      assert acc' == acc + [x];
      assert ParseLines(lines, acc) == ParseLines(LinesOf(d[1..]), acc');
      var tail := d[1..];
      assert UniqueKeys(tail);
      forall a | 0 <= a < |tail| ensures IsWord(tail[a].0) && IsWord(tail[a].1) && tail[a].0 !in Keys(acc') {
        assert tail[a] == d[a + 1];
        KeysHas(tail, a);
      }
      ParseLinesOf(tail, acc');
      ShiftFirst(acc, d);
    }
  }

  lemma IndexFileLines(d: Entries)
    requires forall a :: 0 <= a < |d| ==> IsWord(d[a].0) && IsWord(d[a].1)
    ensures FileLines(Translate(IndexText(d))) == LinesOf(d)
  {
    LinesOfText(d);
    TranslatePlain(IndexText(d));
  }

  lemma ParseIndexLines(d: Entries)
    requires Writable(d)
    ensures ParseLines(LinesOf(d), []) == Ok(d)
  {
    ParseLinesOf(d, []);
    assert [] + d == d;
  }

  /**
   * Index round trip: `read_index` after `write_index(d)` gives `d` back, order included, when
   * every path and every sha is a non-empty run of non-whitespace characters.
   */
  lemma IndexRoundTrip(d: Entries)
    requires Writable(d)
    ensures IndexOf(Some(IndexText(d))) == Ok(d)
  {
    IndexFileLines(d);
    ParseIndexLines(d);
  }
}
