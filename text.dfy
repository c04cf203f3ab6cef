/**
 * The Python `str` operations the scraper relies on, on `seq<char>`:
 * `find`, `in`, `strip`, `startswith`/`endswith`, `split` on one
 * character, `replace`, and slicing with Python's index rules.
 */
module Text {

  /** `pat` occurs in `s` starting at index `i`. */
  predicate OccursAt(s: string, pat: string, i: int) {
    0 <= i && i + |pat| <= |s| && s[i..i + |pat|] == pat
  }

  /** Python's `pat in s`. */
  predicate Contains(s: string, pat: string) {
    exists i | 0 <= i <= |s| :: OccursAt(s, pat, i)
  }

  /** Python's `s.find(pat, from)`: the lowest index at or after `from` where `pat` occurs, or -1. */
  function FindFrom(s: string, pat: string, from: nat): (r: int)
    decreases |s| - from
    ensures r == -1 || (from <= r && OccursAt(s, pat, r))
    ensures forall j :: from <= j && (r == -1 || j < r) ==> !OccursAt(s, pat, j)
  {
    if from + |pat| > |s| then -1
    else if s[from..from + |pat|] == pat then from
    else FindFrom(s, pat, from + 1)
  }

  /** Python's `s.find(pat)`. */
  function Find(s: string, pat: string): (r: int)
    ensures r == -1 <==> !Contains(s, pat)
    ensures r != -1 ==> OccursAt(s, pat, r) && forall j :: 0 <= j < r ==> !OccursAt(s, pat, j)
  {
    FindFrom(s, pat, 0)
  }

  /** An index where `pat` occurs with no earlier occurrence is the one `Find` reports. */
  lemma FindIsFirst(s: string, pat: string, i: int)
    requires OccursAt(s, pat, i)
    requires forall j :: 0 <= j < i ==> !OccursAt(s, pat, j)
    ensures Find(s, pat) == i
  {
  }

  /** Text appended after a found occurrence does not move `Find`'s answer. */
  lemma FindInPrefix(p: string, q: string, pat: string)
    requires Find(p, pat) != -1
    ensures Find(p + q, pat) == Find(p, pat)
  {
    var k := Find(p, pat);
    assert (p + q)[k..k + |pat|] == p[k..k + |pat|];
    forall j | 0 <= j < k
      ensures !OccursAt(p + q, pat, j)
    {
      assert !OccursAt(p, pat, j);
      assert (p + q)[j..j + |pat|] == p[j..j + |pat|];
    }
    FindIsFirst(p + q, pat, k);
  }

  /** Python's `s.startswith(p)`. */
  predicate StartsWith(s: string, p: string) {
    |p| <= |s| && s[..|p|] == p
  }

  /** Python's `s.endswith(p)`. */
  predicate EndsWith(s: string, p: string) {
    |p| <= |s| && s[|s| - |p|..] == p
  }

  /** Python's `str.isspace` for one character. */
  predicate IsSpace(c: char) {
    var n := c as int;
    (9 <= n <= 13) || (28 <= n <= 32) || n == 0x85 || n == 0xA0 || n == 0x1680
    || (0x2000 <= n <= 0x200A) || n == 0x2028 || n == 0x2029 || n == 0x202F
    || n == 0x205F || n == 0x3000
  }

  predicate AllSpace(s: string) {
    forall i :: 0 <= i < |s| ==> IsSpace(s[i])
  }

  /** Text that `strip` leaves as it is: empty, or without whitespace at either end. */
  predicate IsStripped(s: string) {
    s == [] || (!IsSpace(s[0]) && !IsSpace(s[|s| - 1]))
  }

  /** Python's `s.lstrip()`. */
  function TrimLeft(s: string): (r: string)
    ensures |r| <= |s| && r == s[|s| - |r|..]
    ensures r == [] || !IsSpace(r[0])
    ensures AllSpace(s[..|s| - |r|])
  {
    if s != [] && IsSpace(s[0]) then
      var r := TrimLeft(s[1..]);
      assert s[..|s| - |r|] == [s[0]] + s[1..][..|s| - 1 - |r|];
      r
    else s
  }

  /** Python's `s.rstrip()`. */
  function TrimRight(s: string): (r: string)
    ensures |r| <= |s| && r == s[..|r|]
    ensures r == [] || !IsSpace(r[|r| - 1])
    ensures AllSpace(s[|r|..])
  {
    if s != [] && IsSpace(s[|s| - 1]) then
      var r := TrimRight(s[..|s| - 1]);
      assert s[|r|..] == s[..|s| - 1][|r|..] + [s[|s| - 1]];
      r
    else s
  }

  /** Python's `s.strip()`. */
  function Strip(s: string): (r: string)
    ensures IsStripped(r)
    ensures |r| <= |s|
  {
    TrimLeft(TrimRight(s))
  }

  lemma {:induction false} TrimLeftSpaces(ws: string, p: string)
    requires AllSpace(ws)
    ensures TrimLeft(ws + p) == TrimLeft(p)
  {
    if ws != [] {
      assert (ws + p)[0] == ws[0] && IsSpace(ws[0]);
      assert (ws + p)[1..] == ws[1..] + p;
      assert AllSpace(ws[1..]) by {
        forall i | 0 <= i < |ws| - 1 ensures IsSpace(ws[1..][i]) { assert ws[1..][i] == ws[i + 1]; }
      }
      TrimLeftSpaces(ws[1..], p);
    } else {
      assert ws + p == p;
    }
  }

  lemma {:induction false} TrimRightSpaces(p: string, ws: string)
    requires AllSpace(ws)
    ensures TrimRight(p + ws) == TrimRight(p)
  {
    if ws != [] {
      var n := |ws| - 1;
      assert (p + ws)[|p + ws| - 1] == ws[n] && IsSpace(ws[n]);
      assert (p + ws)[..|p + ws| - 1] == p + ws[..n];
      assert AllSpace(ws[..n]) by {
        forall i | 0 <= i < n ensures IsSpace(ws[..n][i]) { assert ws[..n][i] == ws[i]; }
      }
      TrimRightSpaces(p, ws[..n]);
    } else {
      assert p + ws == p;
    }
  }

  /** `strip` only removes characters. */
  lemma StripKeepsCharacters(s: string, c: char)
    requires c in Strip(s)
    ensures c in s
  {
    TrimLeftKeeps(TrimRight(s), c);
    TrimRightKeeps(s, c);
  }

  lemma TrimLeftKeeps(s: string, c: char)
    requires c in TrimLeft(s)
    ensures c in s
  {
    var r := TrimLeft(s);
    var i :| 0 <= i < |r| && r[i] == c;
    var off := |s| - |r|;
    assert r == s[off..];
    assert s[off + i] == r[i];
  }

  lemma {:induction false} TrimRightKeeps(s: string, c: char)
    requires c in TrimRight(s)
    ensures c in s
  {
    if s != [] && IsSpace(s[|s| - 1]) {
      var p := s[..|s| - 1];
      TrimRightKeeps(p, c);
      var i :| 0 <= i < |p| && p[i] == c;
      assert s[i] == c;
    }
  }

  /** A marker that starts with a character the text lacks does not occur in it. */
  lemma AbsentLeadNoOccurrence(s: string, pat: string)
    requires pat != [] && !(pat[0] in s)
    ensures !Contains(s, pat)
  {
    forall i | 0 <= i <= |s| ensures !OccursAt(s, pat, i) {
      if i + |pat| <= |s| {
        assert s[i..i + |pat|][0] == s[i];
      }
    }
  }

  /** `strip` removes exactly the surrounding whitespace: it returns the stripped text it was wrapped around. */
  lemma StripSurrounded(ws1: string, x: string, ws2: string)
    requires AllSpace(ws1) && AllSpace(ws2) && IsStripped(x)
    ensures Strip(ws1 + x + ws2) == x
  {
    TrimRightSpaces(ws1 + x, ws2);
    if x == [] {
      assert ws1 + x == [] + ws1;
      TrimRightSpaces([], ws1);
    } else {
      assert TrimRight(ws1 + x) == ws1 + x;
    }
    TrimLeftSpaces(ws1, x);
  }

  /**
   * Stripping a text that starts with white space and then a stripped,
   * non-empty `x` keeps `x` at the front: only trailing white space of
   * what follows it can go.
   */
  lemma StripKeepsLead(ws: string, x: string, rest: string)
    requires AllSpace(ws) && x != [] && IsStripped(x)
    ensures |Strip(ws + x + rest)| >= |x| && Strip(ws + x + rest)[..|x|] == x
  {
    var s := ws + x + rest;
    var r := TrimRight(s);
    var n := |ws + x|;
    assert !IsSpace(s[n - 1]);
    var tail := r[n..];
    assert r == ws + (x + tail) by {
      assert r == s[..|r|];
      assert s[..n] == ws + x;
    }
    TrimLeftSpaces(ws, x + tail);
    assert (x + tail)[0] == x[0];
    assert (x + tail)[..|x|] == x;
  }

  /** Python's `s.split(sep)` for a one-character separator. */
  function Split(s: string, sep: char): (parts: seq<string>)
    ensures |parts| >= 1
    ensures forall k :: 0 <= k < |parts| ==> sep !in parts[k]
  {
    if s == [] then [[]]
    else
      var rest := Split(s[1..], sep);
      if s[0] == sep then [[]] + rest
      else [[s[0]] + rest[0]] + rest[1..]
  }

  /** Python's `sep.join(parts)` for a one-character separator. */
  function Join(parts: seq<string>, sep: char): string
    requires |parts| >= 1
  {
    if |parts| == 1 then parts[0] else parts[0] + [sep] + Join(parts[1..], sep)
  }

  /** Joining the pieces of a split gives back the text. */
  lemma {:induction false} JoinSplit(s: string, sep: char)
    ensures Join(Split(s, sep), sep) == s
  {
    if s != [] {
      var rest := Split(s[1..], sep);
      JoinSplit(s[1..], sep);
      if s[0] == sep {
        assert ([[]] + rest)[1..] == rest;
      } else if |rest| > 1 {
        var parts := [[s[0]] + rest[0]] + rest[1..];
        assert parts[1..] == rest[1..];
        calc {
          Join(parts, sep);
          [s[0]] + rest[0] + [sep] + Join(rest[1..], sep);
          [s[0]] + Join(rest, sep);
        }
      }
    }
  }

  lemma {:induction false} SplitWithoutSep(p: string, sep: char)
    requires sep !in p
    ensures Split(p, sep) == [p]
  {
    if p != [] {
      SplitWithoutSep(p[1..], sep);
      assert [p[0]] + p[1..] == p;
    }
  }

  lemma {:induction false} SplitAfterPiece(p: string, sep: char, t: string)
    requires sep !in p
    ensures Split(p + [sep] + t, sep) == [p] + Split(t, sep)
  {
    if p == [] {
      assert p + [sep] + t == [sep] + t;
      assert ([sep] + t)[1..] == t;
    } else {
      assert (p + [sep] + t)[1..] == p[1..] + [sep] + t;
      SplitAfterPiece(p[1..], sep, t);
      assert [p[0]] + p[1..] == p;
    }
  }

  /** Splitting a join of separator-free pieces gives back the pieces. */
  lemma {:induction false} SplitJoin(parts: seq<string>, sep: char)
    requires |parts| >= 1
    requires forall k :: 0 <= k < |parts| ==> sep !in parts[k]
    ensures Split(Join(parts, sep), sep) == parts
  {
    if |parts| == 1 {
      SplitWithoutSep(parts[0], sep);
    } else {
      var tail := parts[1..];
      forall k | 0 <= k < |tail| ensures sep !in tail[k] {
        assert tail[k] == parts[k + 1];
      }
      SplitJoin(tail, sep);
      assert Join(parts, sep) == parts[0] + [sep] + Join(tail, sep);
      SplitAfterPiece(parts[0], sep, Join(tail, sep));
      assert [parts[0]] + tail == parts;
    }
  }

  /** Python's `s.replace(pat, rep)`: every occurrence, left to right, without overlaps. */
  function ReplaceAll(s: string, pat: string, rep: string): (r: string)
    requires pat != []
    decreases |s|
  {
    if |s| < |pat| then s
    else if s[..|pat|] == pat then rep + ReplaceAll(s[|pat|..], pat, rep)
    else [s[0]] + ReplaceAll(s[1..], pat, rep)
  }

  /** Text without an occurrence is left as it is. */
  lemma {:induction false} ReplaceAllAbsent(s: string, pat: string, rep: string)
    requires pat != [] && !Contains(s, pat)
    ensures ReplaceAll(s, pat, rep) == s
  {
    if |s| >= |pat| {
      assert !OccursAt(s, pat, 0);
      forall j | OccursAt(s[1..], pat, j) ensures false {
        assert s[1..][j..j + |pat|] == s[j + 1..j + 1 + |pat|];
        assert OccursAt(s, pat, j + 1);
      }
      ReplaceAllAbsent(s[1..], pat, rep);
      assert [s[0]] + s[1..] == s;
    }
  }

  /** A replacement no longer than the pattern never lengthens the text. */
  lemma {:induction false} ReplaceAllNoLonger(s: string, pat: string, rep: string)
    requires pat != [] && |rep| <= |pat|
    ensures |ReplaceAll(s, pat, rep)| <= |s|
    decreases |s|
  {
    if |s| >= |pat| {
      if s[..|pat|] == pat {
        ReplaceAllNoLonger(s[|pat|..], pat, rep);
      } else {
        ReplaceAllNoLonger(s[1..], pat, rep);
      }
    }
  }

  /** A shorter replacement of a pattern that occurs makes the text strictly shorter, so it changes it. */
  lemma {:induction false} ReplaceAllShortens(s: string, pat: string, rep: string)
    requires pat != [] && |rep| < |pat| && Contains(s, pat)
    ensures |ReplaceAll(s, pat, rep)| < |s|
    decreases |s|
  {
    var i :| 0 <= i <= |s| && OccursAt(s, pat, i);
    if s[..|pat|] == pat {
      ReplaceAllNoLonger(s[|pat|..], pat, rep);
    } else {
      assert i != 0;
      OccursInTail(s, pat, i - 1);
      ReplaceAllShortens(s[1..], pat, rep);
    }
  }

  /** Occurrences in the text after its first character are those of the text, one place further on. */
  lemma OccursInTail(s: string, pat: string, j: int)
    requires s != [] && 0 <= j
    ensures OccursAt(s[1..], pat, j) <==> OccursAt(s, pat, j + 1)
  {
    if j + |pat| <= |s| - 1 {
      assert s[1..][j..j + |pat|] == s[j + 1..j + 1 + |pat|];
    }
  }

  /** Dropping the first character keeps a last-and-only occurrence last and only. */
  lemma TailOnlyAtEnd(s: string, pat: string)
    requires pat != [] && |s| > |pat| && OccursAt(s, pat, |s| - |pat|)
    requires forall j :: 0 <= j < |s| - |pat| ==> !OccursAt(s, pat, j)
    ensures var t := s[1..];
      OccursAt(t, pat, |t| - |pat|) && forall j :: 0 <= j < |t| - |pat| ==> !OccursAt(t, pat, j)
  {
    var t := s[1..];
    OccursInTail(s, pat, |t| - |pat|);
    forall j | 0 <= j < |t| - |pat| ensures !OccursAt(t, pat, j) {
      OccursInTail(s, pat, j);
    }
  }

  lemma {:induction false} ReplaceAllOnlyAtEnd(s: string, pat: string, rep: string)
    requires pat != [] && OccursAt(s, pat, |s| - |pat|)
    requires forall j :: 0 <= j < |s| - |pat| ==> !OccursAt(s, pat, j)
    ensures ReplaceAll(s, pat, rep) == s[..|s| - |pat|] + rep
  {
    if |s| == |pat| {
      assert s[..|pat|] == pat;
      assert s[|pat|..] == [];
    } else {
      assert !OccursAt(s, pat, 0);
      assert s[..|pat|] != pat by {
        assert s[..|pat|] == s[0..0 + |pat|];
      }
      var t := s[1..];
      assert ReplaceAll(s, pat, rep) == [s[0]] + ReplaceAll(t, pat, rep);
      TailOnlyAtEnd(s, pat);
      ReplaceAllOnlyAtEnd(t, pat, rep);
      var m := |t| - |pat|;
      assert [s[0]] + t[..m] == s[..m + 1];
    }
  }

  /** A suffix that is the only occurrence is the one that gets replaced. */
  lemma ReplaceSuffix(s: string, pat: string, rep: string)
    requires pat != [] && EndsWith(s, pat) && Find(s, pat) == |s| - |pat|
    ensures ReplaceAll(s, pat, rep) == s[..|s| - |pat|] + rep
  {
    ReplaceAllOnlyAtEnd(s, pat, rep);
  }

  /** Python's reading of one slice bound: negative counts from the end, then clamp to the text. */
  function SliceIndex(i: int, n: nat): (r: nat)
    ensures r <= n
    ensures 0 <= i <= n ==> r == i
    ensures i < 0 && 0 <= n + i ==> r == n + i
  {
    if i < 0 then (if i + n < 0 then 0 else i + n) else if i > n then n else i
  }

  /**
   * Python's `s[i:j]`. A negative start counts from the end, so the `-1`
   * of a failed `find` starts the slice at the last character.
   */
  function PySlice(s: string, i: int, j: int): (r: string)
    ensures 0 <= i <= j <= |s| ==> r == s[i..j]
    ensures -|s| <= i < 0 && 0 <= j <= |s| ==> r == (if |s| + i < j then s[|s| + i..j] else [])
    ensures |r| <= |s|
  {
    var a, b := SliceIndex(i, |s|), SliceIndex(j, |s|);
    if a < b then s[a..b] else []
  }
}
