/**
 * The Python `str` operations the repository's text formats rely on: `splitlines`, `strip`,
 * `split()` on whitespace, `split(sep, 1)`, `startswith`, `in`, `join`, and `sorted` on strings
 * (code-point order).
 */
module PyStr {
  import opened Wrappers

  /** `c.isspace()`: the characters `strip()` and `split()` treat as whitespace. */
  predicate IsSpace(c: char)
  {
    || c == '\t' || c == '\n' || c == '\U{b}' || c == '\U{c}' || c == '\r'
    || c == '\U{1c}' || c == '\U{1d}' || c == '\U{1e}' || c == '\U{1f}' || c == ' '
    || c == '\U{85}' || c == '\U{a0}' || c == '\U{1680}' || ('\U{2000}' <= c <= '\U{200a}')
    || c == '\U{2028}' || c == '\U{2029}' || c == '\U{202f}' || c == '\U{205f}' || c == '\U{3000}'
  }

  /** The line boundaries of `str.splitlines` (`\r\n` counts as one boundary). */
  predicate IsLineBreak(c: char)
  {
    || c == '\n' || c == '\r' || c == '\U{b}' || c == '\U{c}'
    || c == '\U{1c}' || c == '\U{1d}' || c == '\U{1e}'
    || c == '\U{85}' || c == '\U{2028}' || c == '\U{2029}'
  }

  predicate NoLineBreak(s: string) { forall k :: 0 <= k < |s| ==> !IsLineBreak(s[k]) }

  predicate NoSpace(s: string) { forall k :: 0 <= k < |s| ==> !IsSpace(s[k]) }

  predicate NoChar(s: string, c: char) { forall k :: 0 <= k < |s| ==> s[k] != c }

  /** The first line boundary at or after `k`, or `|s|`. */
  function FirstBreak(s: string, k: nat): (r: nat)
    requires k <= |s|
    ensures k <= r <= |s|
    ensures r < |s| ==> IsLineBreak(s[r])
    ensures forall m :: k <= m < r ==> !IsLineBreak(s[m])
    decreases |s| - k
  {
    if k == |s| || IsLineBreak(s[k]) then k else FirstBreak(s, k + 1)
  }

  /** `s.splitlines()`: the lines without their boundaries; no trailing empty line. */
  function SplitLines(s: string): (r: seq<string>)
    decreases |s|
  {
    if s == [] then []
    else
      var k := FirstBreak(s, 0);
      if k == |s| then [s]
      else if s[k] == '\r' && k + 1 < |s| && s[k + 1] == '\n' then [s[..k]] + SplitLines(s[k + 2..])
      else [s[..k]] + SplitLines(s[k + 1..])
  }

  /** `sep.join(parts)`. */
  function Join(sep: string, parts: seq<string>): (r: string)
  {
    if parts == [] then []
    else if |parts| == 1 then parts[0]
    else parts[0] + sep + Join(sep, parts[1..])
  }

  function StartsWith(s: string, prefix: string): bool
  {
    |prefix| <= |s| && s[..|prefix|] == prefix
  }

  function TrimLeft(s: string): (r: string)
    ensures |r| <= |s| && r == s[|s| - |r|..]
    ensures r != [] ==> !IsSpace(r[0])
    decreases |s|
  {
    if s != [] && IsSpace(s[0]) then TrimLeft(s[1..]) else s
  }

  function TrimRight(s: string): (r: string)
    ensures |r| <= |s| && r == s[..|r|]
    ensures r != [] ==> !IsSpace(r[|r| - 1])
    decreases |s|
  {
    if s != [] && IsSpace(s[|s| - 1]) then TrimRight(s[..|s| - 1]) else s
  }

  /** `s.strip()`. */
  function Strip(s: string): (r: string)
  {
    TrimRight(TrimLeft(s))
  }

  /** The first whitespace character at or after `k`, or `|s|`. */
  function FirstSpace(s: string, k: nat): (r: nat)
    requires k <= |s|
    ensures k <= r <= |s|
    ensures r < |s| ==> IsSpace(s[r])
    ensures forall m :: k <= m < r ==> !IsSpace(s[m])
    decreases |s| - k
  {
    if k == |s| || IsSpace(s[k]) then k else FirstSpace(s, k + 1)
  }

  /** `s.split()`: the maximal runs of non-whitespace characters. */
  function SplitWs(s: string): (r: seq<string>)
    decreases |s|
  {
    var t := TrimLeft(s);
    if t == [] then []
    else
      var k := FirstSpace(t, 0);
      [t[..k]] + SplitWs(t[k..])
  }

  /** Non-empty runs without whitespace, as `split()` returns them. */
  predicate AllWords(ws: seq<string>)
  {
    forall k :: 0 <= k < |ws| ==> ws[k] != [] && NoSpace(ws[k])
  }

  lemma WordsCons(w: string, ws: seq<string>)
    requires w != [] && NoSpace(w) && AllWords(ws)
    ensures AllWords([w] + ws)
  {
    var r := [w] + ws;
    assert forall m :: 0 < m < |r| ==> r[m] == ws[m - 1];
  }

  /** Every part of `s.split()` is a non-empty run without whitespace. */
  lemma {:induction false} SplitWsWords(s: string)
    ensures AllWords(SplitWs(s))
    decreases |s|
  {
    var t := TrimLeft(s);
    if t != [] {
      var k := FirstSpace(t, 0);
      var w := t[..k];
      assert k > 0;
      assert forall m :: 0 <= m < |w| ==> w[m] == t[m];
      SplitWsWords(t[k..]);
      WordsCons(w, SplitWs(t[k..]));
    }
  }

  /** `s.split(sep, 1)` unpacked into two names: None where the unpacking raises (no `sep` in `s`). */
  function SplitOnce(s: string, sep: char): Option<(string, string)>
  {
    if s == [] then None
    else if s[0] == sep then Some(([], s[1..]))
    else match SplitOnce(s[1..], sep)
      case None => None
      case Some((a, b)) => Some(([s[0]] + a, b))
  }

  /** The unpacking succeeds exactly when `s` holds `sep`; the parts are cut at its first occurrence. */
  lemma {:induction false} SplitOnceParts(s: string, sep: char)
    ensures var r := SplitOnce(s, sep);
      && (r.Some? <==> sep in s)
      && (r.Some? ==> s == r.value.0 + [sep] + r.value.1 && sep !in r.value.0)
  {
    if s != [] && s[0] != sep {
      SplitOnceParts(s[1..], sep);
      assert s == [s[0]] + s[1..];
    }
  }

  predicate OccursAt(s: string, pat: string, p: nat)
  {
    p + |pat| <= |s| && s[p..p + |pat|] == pat
  }

  /** The index of the first occurrence of `pat` in `s` at or after `k`, or -1. */
  function FindSubFrom(s: string, pat: string, k: nat): (r: int)
    ensures r == -1 || (k <= r && OccursAt(s, pat, r))
    ensures forall p :: k <= p && (r == -1 || p < r) ==> !OccursAt(s, pat, p)
    decreases |s| - k
  {
    if k + |pat| > |s| then -1
    else if s[k..k + |pat|] == pat then k
    else FindSubFrom(s, pat, k + 1)
  }

  /** `s.find(pat)`; `pat in s` is `FindSub(s, pat) != -1`. */
  function FindSub(s: string, pat: string): (r: int)
  {
    FindSubFrom(s, pat, 0)
  }

  /* ---------------- string order and sorting ---------------- */

  /** Python's `<` on strings: lexicographic by code point, a proper prefix first. */
  predicate Less(a: string, b: string)
  {
    if a == [] then b != []
    else if b == [] then false
    else if a[0] != b[0] then a[0] < b[0]
    else Less(a[1..], b[1..])
  }

  lemma {:induction false} LessIrreflexive(a: string)
    ensures !Less(a, a)
  {
    if a != [] { LessIrreflexive(a[1..]); }
  }

  lemma {:induction false} LessTransitive(a: string, b: string, c: string)
    requires Less(a, b) && Less(b, c)
    ensures Less(a, c)
  {
    if a != [] && b != [] && c != [] && a[0] == b[0] && b[0] == c[0] {
      LessTransitive(a[1..], b[1..], c[1..]);
    }
  }

  lemma {:induction false} LessTotal(a: string, b: string)
    ensures a == b || Less(a, b) || Less(b, a)
    ensures !(Less(a, b) && Less(b, a))
  {
    if a != [] && b != [] && a[0] == b[0] {
      LessTotal(a[1..], b[1..]);
      if a[1..] == b[1..] {
        assert a == [a[0]] + a[1..] && b == [b[0]] + b[1..];
      }
    }
  }

  predicate StrictlySorted(r: seq<string>)
  {
    forall i, j :: 0 <= i < j < |r| ==> Less(r[i], r[j])
  }

  predicate IsLeast(m: string, s: set<string>)
  {
    m in s && forall x :: x in s ==> !Less(x, m)
  }

  lemma {:induction false} LeastExists(s: set<string>)
    requires s != {}
    ensures exists m :: IsLeast(m, s)
    decreases s
  {
    var x :| x in s;
    if s == {x} {
      LessIrreflexive(x);
      assert IsLeast(x, s);
    } else {
      LeastExists(s - {x});
      var m :| IsLeast(m, s - {x});
      LessTotal(m, x);
      if Less(x, m) {
        forall y | y in s ensures !Less(y, x) {
          if y == x { LessIrreflexive(x); }
          else if Less(y, x) { LessTransitive(y, x, m); }
        }
        assert IsLeast(x, s);
      } else {
        assert IsLeast(m, s);
      }
    }
  }

  lemma LeastUnique(s: set<string>)
    ensures forall m, m' :: IsLeast(m, s) && IsLeast(m', s) ==> m == m'
  {
    forall m, m' | IsLeast(m, s) && IsLeast(m', s) ensures m == m' {
      LessTotal(m, m');
    }
  }

  /** `min(s)`: the element no other element precedes. */
  function Least(s: set<string>): (m: string)
    requires s != {}
    ensures IsLeast(m, s)
  {
    LeastExists(s);
    LeastUnique(s);
    var m :| IsLeast(m, s);
    m
  }

  /** `sorted(s)` for a set of strings: every element once (its order is `SortedOfSorted`). */
  function SortedOf(s: set<string>): (r: seq<string>)
    ensures forall x :: x in r <==> x in s
    ensures |r| == |s|
    decreases s
  {
    if s == {} then [] else var m := Least(s); [m] + SortedOf(s - {m})
  }

  /** The listing is in increasing order. */
  lemma {:induction false} SortedOfSorted(s: set<string>)
    ensures StrictlySorted(SortedOf(s))
    decreases s
  {
    if s != {} {
      var m := Least(s);
      var rest := SortedOf(s - {m});
      SortedOfSorted(s - {m});
      forall x | x in rest ensures Less(m, x) {
        LessTotal(m, x);
      }
      var r := [m] + rest;
      forall i, j | 0 <= i < j < |r| ensures Less(r[i], r[j]) {
        if i == 0 {
          assert r[j] == rest[j - 1] && r[j] in rest;
        } else {
          assert r[i] == rest[i - 1] && r[j] == rest[j - 1];
        }
      }
    }
  }

  lemma ShiftFirst<T>(acc: seq<T>, s: seq<T>)
    requires s != []
    ensures acc + [s[0]] + s[1..] == acc + s
  {
    assert s == [s[0]] + s[1..];
  }

  lemma HeadTail<T>(s: seq<T>)
    requires s != []
    ensures s == [s[0]] + s[1..]
  {
  }

  lemma HeadIn<T>(s: seq<T>)
    ensures s == [] || s[0] in s
  {
  }

  /** A strictly sorted listing of a set is unique, so `SortedOf` is the only one. */
  lemma {:induction false} SortedListingUnique(a: seq<string>, b: seq<string>)
    requires StrictlySorted(a) && StrictlySorted(b)
    requires forall x :: x in a <==> x in b
    ensures a == b
  {
    if a == [] || b == [] {
      HeadIn(a);
      HeadIn(b);
    } else {
      assert a[0] in b;
      var j :| 0 <= j < |b| && b[j] == a[0];
      assert b[0] in a;
      var i :| 0 <= i < |a| && a[i] == b[0];
      assert a[0] == b[0] || Less(b[0], a[0]);
      assert b[0] == a[0] || Less(a[0], b[0]);
      LessTotal(a[0], b[0]);
      forall x ensures x in a[1..] <==> x in b[1..] {
        if x in a[1..] {
          var i :| 1 <= i < |a| && a[i] == x;
          assert Less(a[0], x);
          LessIrreflexive(x);
          assert x in a;
          assert x in b;
          var j :| 0 <= j < |b| && b[j] == x;
          assert j != 0;
          assert b[1..][j - 1] == x;
        }
        if x in b[1..] {
          var i :| 1 <= i < |b| && b[i] == x;
          assert Less(b[0], x);
          LessIrreflexive(x);
          assert x in b;
          assert x in a;
          var j :| 0 <= j < |a| && a[j] == x;
          assert j != 0;
          assert a[1..][j - 1] == x;
        }
      }
      SortedListingUnique(a[1..], b[1..]);
      assert a == [a[0]] + a[1..] && b == [b[0]] + b[1..];
    }
  }

  /* ---------------- lemmas used by the round trips ---------------- */

  lemma {:induction false} SplitOnceAt(a: string, sep: char, b: string)
    requires NoChar(a, sep)
    ensures SplitOnce(a + [sep] + b, sep) == Some((a, b))
  {
    if a != [] {
      assert (a + [sep] + b)[1..] == a[1..] + [sep] + b;
      SplitOnceAt(a[1..], sep, b);
      assert [a[0]] + a[1..] == a;
    } else {
      assert a + [sep] + b == [sep] + b;
    }
  }

  lemma FirstBreakAt(s: string, k: nat)
    requires k < |s| && IsLineBreak(s[k])
    requires forall m :: 0 <= m < k ==> !IsLineBreak(s[m])
    ensures FirstBreak(s, 0) == k
  {
  }

  /** A line without boundaries followed by `\n` is split off as one line. */
  lemma SplitLinesCons(a: string, b: string)
    requires NoLineBreak(a)
    ensures SplitLines(a + "\n" + b) == [a] + SplitLines(b)
  {
    var s := a + "\n" + b;
    FirstBreakAt(s, |a|);
    assert s[..|a|] == a;
    assert s[|a| + 1..] == b;
  }

  lemma JoinCons(sep: string, x: string, rest: seq<string>)
    requires rest != []
    ensures Join(sep, [x] + rest) == x + sep + Join(sep, rest)
  {
    assert ([x] + rest)[1..] == rest;
  }

  /** `splitlines` undoes `"\n".join` on lines that hold no boundary of their own. */
  lemma {:induction false} SplitLinesJoin(ls: seq<string>, t: string)
    requires forall k :: 0 <= k < |ls| ==> NoLineBreak(ls[k])
    ensures SplitLines(Join("\n", ls + [t])) == ls + SplitLines(t)
  {
    if ls == [] {
      assert ls + [t] == [t];
    } else {
      var rest := ls[1..] + [t];
      var joined := Join("\n", rest);
      calc {
        SplitLines(Join("\n", ls + [t]));
        == { assert ls + [t] == [ls[0]] + rest; JoinCons("\n", ls[0], rest); }
        SplitLines(ls[0] + "\n" + joined);
        == { SplitLinesCons(ls[0], joined); }
        [ls[0]] + SplitLines(joined);
        == { SplitLinesJoin(ls[1..], t); }
        [ls[0]] + (ls[1..] + SplitLines(t));
        == { assert [ls[0]] + ls[1..] == ls; }
        ls + SplitLines(t);
      }
    }
  }

  /** A message the commit format carries unchanged: `\n` is its only line boundary, and it does not end with one. */
  predicate MessageOk(m: string)
  {
    && (forall k :: 0 <= k < |m| && IsLineBreak(m[k]) ==> m[k] == '\n')
    && (m == [] || m[|m| - 1] != '\n')
  }

  lemma SplitLinesNonEmpty(s: string)
    requires s != []
    ensures SplitLines(s) != []
  {
  }

  lemma {:induction false} JoinSplitLines(m: string)
    requires MessageOk(m)
    ensures Join("\n", SplitLines(m)) == m
    decreases |m|
  {
    if m != [] {
      var k := FirstBreak(m, 0);
      if k < |m| {
        var line, rest := m[..k], m[k + 1..];
        assert m[k] == '\n';
        assert m == line + "\n" + rest;
        SplitLinesCons(line, rest);
        assert rest != [] && rest[|rest| - 1] == m[|m| - 1];
        assert MessageOk(rest) by {
          forall i | 0 <= i < |rest| && IsLineBreak(rest[i]) ensures rest[i] == '\n' {
            assert rest[i] == m[k + 1 + i];
          }
        }
        JoinSplitLines(rest);
        SplitLinesNonEmpty(rest);
        JoinCons("\n", line, SplitLines(rest));
      } else {
        assert SplitLines(m) == [m];
      }
    }
  }

  /** `strip` leaves a string alone when it does not start or end with whitespace. */
  lemma StripPlain(s: string)
    requires s == [] || (!IsSpace(s[0]) && !IsSpace(s[|s| - 1]))
    ensures Strip(s) == s
  {
  }

  /** `strip` drops one leading whitespace character before a string it leaves alone. */
  lemma StripLeadingSpace(c: char, s: string)
    requires IsSpace(c)
    requires s == [] || (!IsSpace(s[0]) && !IsSpace(s[|s| - 1]))
    ensures Strip([c] + s) == s
  {
    assert ([c] + s)[1..] == s;
    assert TrimLeft([c] + s) == TrimLeft(s) == s;
  }

  /** Leading whitespace is skipped by `split()`. */
  lemma SplitWsSpace(s: string)
    ensures SplitWs(" " + s) == SplitWs(s)
  {
    assert (" " + s)[1..] == s;
    assert TrimLeft(" " + s) == TrimLeft(s);
  }

  /** A word followed by whitespace (or nothing) is the first thing `split()` yields. */
  lemma SplitWsCons(w: string, rest: string)
    requires w != [] && NoSpace(w)
    requires rest == [] || IsSpace(rest[0])
    ensures SplitWs(w + rest) == [w] + SplitWs(rest)
  {
    var l := w + rest;
    assert TrimLeft(l) == l by {
      assert l[0] == w[0];
    }
    assert FirstSpace(l, 0) == |w| by {
      forall m | 0 <= m < |w| ensures !IsSpace(l[m]) {
        assert l[m] == w[m];
      }
      if rest != [] {
        assert l[|w|] == rest[0];
      }
    }
    assert l[..|w|] == w && l[|w|..] == rest;
  }

  /** Two words joined by one space split back into the two. */
  lemma SplitWsPair(p: string, s: string)
    requires p != [] && NoSpace(p) && s != [] && NoSpace(s)
    ensures SplitWs(p + " " + s) == [p, s]
  {
    assert p + " " + s == p + (" " + s);
    SplitWsCons(p, " " + s);
    SplitWsSpace(s);
    SplitWsCons(s, []);
    assert s + [] == s;
    assert SplitWs([]) == [];
    assert SplitWs(s) == [s];
    PairOf(p, s);
  }

  lemma PairOf<T>(a: T, b: T)
    ensures [a] + [b] == [a, b]
  {
  }
}
