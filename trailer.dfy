/**
 * The `[files]` trailer: `cmd_commit` appends the sorted list of tracked paths to the commit
 * message after a `[files]` line, and `cmd_add`, `cmd_commit` and `cmd_status` read the head
 * commit's tracked paths back from that text.
 */
module Trailer {
  import opened Wrappers
  import opened PyStr

  const MARK: string := "[files]"

  /**
   * The paths after the first `[files]` of a commit message: the stripped, non-blank lines of
   * the stripped remainder. A message that is not text (the source's empty list, for a commit
   * without a blank line) or that holds no mark lists nothing.
   */
  function TrackedPaths(msg: Option<string>): (r: set<string>)
    ensures msg.None? || FindSub(msg.value, MARK) == -1 ==> r == {}
    ensures forall p :: p in r ==> p != "" && Strip(p) == p
  {
    if msg.None? then {}
    else
      var at := FindSub(msg.value, MARK);
      if at == -1 then {}
      else
        Listed(SplitLines(Strip(msg.value[at + |MARK|..])))
  }

  /** The stripped, non-blank lines among `ls`. */
  function Listed(ls: seq<string>): (r: set<string>)
    ensures forall p :: p in r ==> p != "" && Strip(p) == p
  {
    StripIdempotentAll(ls);
    set k | 0 <= k < |ls| && Strip(ls[k]) != "" :: Strip(ls[k])
  }

  /** `message += "\n\n[files]\n" + "\n".join(sorted(paths))`. */
  function WithTrailer(message: string, paths: set<string>): string
  {
    message + "\n\n" + MARK + "\n" + Join("\n", SortedOf(paths))
  }

  /** A path the trailer carries intact: non-empty, on one line, without surrounding whitespace. */
  predicate ListablePath(p: string)
  {
    p != "" && NoLineBreak(p) && !IsSpace(p[0]) && !IsSpace(p[|p| - 1])
  }

  /* ---------------- helper facts about strip ---------------- */

  lemma StripIdempotent(s: string)
    ensures Strip(Strip(s)) == Strip(s)
  {
    var t := Strip(s);
    if t != [] {
      assert !IsSpace(t[0]) by {
        var l := TrimLeft(s);
        assert t == l[..|t|];
      }
    }
  }

  lemma StripIdempotentAll(ls: seq<string>)
    ensures forall k :: 0 <= k < |ls| ==> Strip(Strip(ls[k])) == Strip(ls[k])
  {
    forall k | 0 <= k < |ls| ensures Strip(Strip(ls[k])) == Strip(ls[k]) {
      StripIdempotent(ls[k]);
    }
  }

  /* ---------------- round trip ---------------- */

  /** With no mark in `m`, the first mark of `m + "\n\n[files]" + rest` is the appended one. */
  lemma MarkAfter(m: string, rest: string)
    requires FindSub(m, MARK) == -1
    ensures FindSub(m + "\n\n" + MARK + rest, MARK) == |m| + 2
  {
    var s := m + "\n\n" + MARK + rest;
    var q := |m| + 2;
    assert s[q..q + |MARK|] == MARK;
    forall p | 0 <= p < q ensures !OccursAt(s, MARK, p) {
      if p + |MARK| <= |m| {
        assert !OccursAt(m, MARK, p);
        assert s[p..p + |MARK|] == m[p..p + |MARK|];
      } else {
        var i := if p <= |m| then |m| - p else 0;
        assert s[p..p + |MARK|][i] == s[p + i] == '\n';
        assert MARK[i] != '\n';
      }
    }
    assert OccursAt(s, MARK, q);
  }

  lemma {:induction false} JoinEnds(ls: seq<string>)
    requires |ls| > 0 && forall k :: 0 <= k < |ls| ==> ls[k] != ""
    ensures var j := Join("\n", ls); |j| > 0 && j[0] == ls[0][0] && j[|j| - 1] == ls[|ls| - 1][|ls[|ls| - 1]| - 1]
  {
    if |ls| > 1 {
      JoinEnds(ls[1..]);
    }
  }

  /** `splitlines` undoes `"\n".join` on non-empty lines without boundaries. */
  lemma SplitLinesJoinAll(ls: seq<string>)
    requires forall k :: 0 <= k < |ls| ==> ls[k] != "" && NoLineBreak(ls[k])
    ensures SplitLines(Join("\n", ls)) == ls
  {
    if ls != [] {
      var n := |ls| - 1;
      assert ls[..n] + [ls[n]] == ls;
      SplitLinesJoin(ls[..n], ls[n]);
      assert FirstBreak(ls[n], 0) == |ls[n]|;
    }
  }

  /** The text after the appended mark is the newline and the joined paths. */
  lemma TrailerText(message: string, j: string)
    requires FindSub(message, MARK) == -1
    ensures var s := message + "\n\n" + MARK + "\n" + j;
      FindSub(s, MARK) == |message| + 2 && s[|message| + 2 + |MARK|..] == "\n" + j
  {
    var s := message + "\n\n" + MARK + "\n" + j;
    assert s == message + "\n\n" + MARK + ("\n" + j);
    MarkAfter(message, "\n" + j);
  }

  /** Joined listable paths neither start nor end with whitespace. */
  lemma JoinedEnds(ls: seq<string>)
    requires |ls| > 0 && forall k :: 0 <= k < |ls| ==> ListablePath(ls[k])
    ensures var j := Join("\n", ls); |j| > 0 && !IsSpace(j[0]) && !IsSpace(j[|j| - 1])
  {
    JoinEnds(ls);
  }

  /** `strip` removes the newline before the joined paths and nothing else. */
  lemma StripJoined(ls: seq<string>)
    requires forall k :: 0 <= k < |ls| ==> ListablePath(ls[k])
    ensures Strip("\n" + Join("\n", ls)) == Join("\n", ls)
  {
    var j := Join("\n", ls);
    if ls != [] {
      JoinedEnds(ls);
    } else {
      assert j == [];
    }
    StripLeadingSpace('\n', j);
  }

  /** The lines listed are exactly the paths when every line is a listable path. */
  lemma ListedPaths(ls: seq<string>)
    requires forall k :: 0 <= k < |ls| ==> ListablePath(ls[k])
    ensures forall p :: p in Listed(ls) <==> p in ls
  {
    forall p | p in ls ensures p in Listed(ls) {
      var k :| 0 <= k < |ls| && ls[k] == p;
      StripPlain(p);
    }
  }

  /** Listing a set of listable paths in order and reading the lines back gives the set. */
  lemma ListedSorted(paths: set<string>)
    requires forall p :: p in paths ==> ListablePath(p)
    ensures Listed(SortedOf(paths)) == paths
  {
    var ls := SortedOf(paths);
    assert forall k :: 0 <= k < |ls| ==> ListablePath(ls[k]);
    ListedPaths(ls);
  }

  /** The lines read back from a message with its trailer are the sorted paths. */
  lemma TrailerLines(message: string, paths: set<string>)
    requires FindSub(message, MARK) == -1
    requires forall p :: p in paths ==> ListablePath(p)
    ensures TrackedPaths(Some(WithTrailer(message, paths))) == Listed(SortedOf(paths))
  {
    var ls := SortedOf(paths);
    var j := Join("\n", ls);
    var s := WithTrailer(message, paths);
    TrailerText(message, j);
    var tail := s[|message| + 2 + |MARK|..];
    assert tail == "\n" + j;
    assert forall k :: 0 <= k < |ls| ==> ListablePath(ls[k]);
    StripJoined(ls);
    SplitLinesJoinAll(ls);
    assert SplitLines(Strip(tail)) == ls;
  }

  /**
   * Trailer round trip: when the message holds no `[files]` of its own, the paths read back from
   * the message with its trailer are exactly the paths listed, for paths the trailer carries
   * intact.
   */
  lemma TrailerRoundTrip(message: string, paths: set<string>)
    requires FindSub(message, MARK) == -1
    requires forall p :: p in paths ==> ListablePath(p)
    ensures TrackedPaths(Some(WithTrailer(message, paths))) == paths
  {
    TrailerLines(message, paths);
    ListedSorted(paths);
  }
}
