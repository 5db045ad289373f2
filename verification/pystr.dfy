/** The fragment of Python's `str` API the agent core relies on: `find`, `in` and
    `split(sep)` with a non-empty separator, together with `sep.join`, the inverse of `split`. */
module PyStr {
  import opened Results

  /** `pat` occurs in `s` starting at index `i`. */
  predicate IsAt(s: string, pat: string, i: nat) {
    i + |pat| <= |s| && s[i..i + |pat|] == pat
  }

  /** The first character of `pat` does not occur again inside `pat`, so two occurrences of
      `pat` in any string can never overlap. Every marker of the text protocol has this shape. */
  predicate HeadUnique(pat: string) {
    |pat| > 0 && forall k :: 0 < k < |pat| ==> pat[k] != pat[0]
  }

  /** `pat` occurs in `s` at exactly one index. */
  ghost predicate OccursOnce(s: string, pat: string) {
    exists i: nat :: IsAt(s, pat, i) && forall j: nat :: IsAt(s, pat, j) ==> j == i
  }

  /** Python's `s.find(pat)`: the index of the leftmost occurrence, `None` for -1. */
  function Find(s: string, pat: string): (r: Option<nat>)
    ensures r.Some? ==> IsAt(s, pat, r.value)
    ensures r.Some? ==> forall j: nat :: j < r.value ==> !IsAt(s, pat, j)
    ensures r.None? ==> forall j: nat :: !IsAt(s, pat, j)
    decreases |s|
  {
    if |s| < |pat| then None
    else if s[..|pat|] == pat then Some(0)
    else
      var rest := Find(s[1..], pat);
      ShiftAll(s, pat);
      match rest
      case None => None
      case Some(k) => Some(k + 1)
  }

  /** Python's `pat in s`. */
  predicate Contains(s: string, pat: string)
  {
    Find(s, pat).Some?
  }

  /** `pat in s` holds exactly when `pat` occurs somewhere in `s`. */
  lemma ContainsIff(s: string, pat: string)
    ensures Contains(s, pat) <==> exists i: nat :: IsAt(s, pat, i)
  {
    if Contains(s, pat) {
      assert IsAt(s, pat, Find(s, pat).value);
    }
  }

  /** Python's `s.split(sep)`: cut `s` at every occurrence of `sep`, scanning left to right. */
  function Split(s: string, sep: string): (parts: seq<string>)
    requires |sep| > 0
    ensures |parts| >= 1
    decreases |s|
  {
    match Find(s, sep)
    case None => [s]
    case Some(i) => [s[..i]] + Split(s[i + |sep|..], sep)
  }

  /** Python's `sep.join(parts)`. */
  function Join(parts: seq<string>, sep: string): string
  {
    if |parts| == 0 then ""
    else if |parts| == 1 then parts[0]
    else parts[0] + sep + Join(parts[1..], sep)
  }

  // ---------------------------------------------------------------------------
  // Occurrences under slicing

  lemma ShiftAll(s: string, pat: string)
    requires |s| > 0
    ensures forall j: nat :: 0 < j ==> (IsAt(s, pat, j) <==> IsAt(s[1..], pat, j - 1))
  {
    forall j: nat | 0 < j
      ensures IsAt(s, pat, j) <==> IsAt(s[1..], pat, j - 1)
    {
      IsAtDrop(s, pat, 1, j - 1);
    }
  }

  /** An occurrence inside a suffix `s[d..]` is an occurrence in `s`, shifted by `d`. */
  lemma IsAtDrop(s: string, pat: string, d: nat, j: nat)
    requires d <= |s|
    ensures IsAt(s[d..], pat, j) <==> IsAt(s, pat, j + d)
  {
    if j + |pat| <= |s[d..]| {
      assert s[d..][j..j + |pat|] == s[j + d..j + d + |pat|];
    }
  }

  /** An occurrence inside a prefix `s[..n]` is an occurrence in `s` at the same index. */
  lemma IsAtTake(s: string, pat: string, n: nat, j: nat)
    requires n <= |s|
    ensures IsAt(s[..n], pat, j) <==> IsAt(s, pat, j) && j + |pat| <= n
  {
    if j + |pat| <= n {
      assert s[..n][j..j + |pat|] == s[j..j + |pat|];
    }
  }

  /** Two occurrences of a head-unique pattern are equal or at least `|pat|` apart. */
  lemma NoOverlap(s: string, pat: string, i: nat, j: nat)
    requires HeadUnique(pat) && IsAt(s, pat, i) && IsAt(s, pat, j) && i < j
    ensures i + |pat| <= j
  {
    if j < i + |pat| {
      OverlapChar(s, pat, i, j);
    }
  }

  /** Two overlapping occurrences force a repeat of the pattern's first character. */
  lemma OverlapChar(s: string, pat: string, i: nat, j: nat)
    requires IsAt(s, pat, i) && IsAt(s, pat, j) && i < j < i + |pat|
    ensures pat[j - i] == pat[0]
  {
    assert s[i..i + |pat|][j - i] == s[j] == s[j..j + |pat|][0];
  }

  /** A string that lacks the first character of `pat` cannot contain `pat`. */
  lemma NoHeadNoMatch(s: string, pat: string)
    requires |pat| > 0 && pat[0] !in s
    ensures !Contains(s, pat)
  {
    forall j: nat
      ensures !IsAt(s, pat, j)
    {
      if j + |pat| <= |s| {
        assert s[j..j + |pat|][0] == s[j];
      }
    }
  }

  // ---------------------------------------------------------------------------
  // Properties of split

  /** `sep.join(s.split(sep)) == s`: splitting loses nothing. */
  lemma {:induction false} SplitJoin(s: string, sep: string)
    requires |sep| > 0
    ensures Join(Split(s, sep), sep) == s
    decreases |s|
  {
    var r := Find(s, sep);
    if r.Some? {
      var i := r.value;
      var rest := s[i + |sep|..];
      SplitJoin(rest, sep);
      SplitUnfold(s, sep, i);
      JoinCons(s[..i], Split(rest, sep), sep);
    }
  }

  /** One step of `split`: the text before the first separator, then the split of the rest. */
  lemma SplitUnfold(s: string, sep: string, i: nat)
    requires |sep| > 0 && Find(s, sep) == Some(i)
    ensures Split(s, sep) == [s[..i]] + Split(s[i + |sep|..], sep)
    ensures s == s[..i] + sep + s[i + |sep|..]
  {
    Reassemble(s, sep, i);
  }

  lemma Reassemble(s: string, sep: string, i: nat)
    requires IsAt(s, sep, i)
    ensures s == s[..i] + sep + s[i + |sep|..]
  {
    assert s == s[..i] + s[i..i + |sep|] + s[i + |sep|..];
  }

  lemma JoinCons(x: string, tail: seq<string>, sep: string)
    requires |tail| > 0
    ensures Join([x] + tail, sep) == x + sep + Join(tail, sep)
  {
    assert ([x] + tail)[1..] == tail;
  }

  /** No piece produced by `split` contains the separator. */
  lemma {:induction false} SplitPiecesFree(s: string, sep: string)
    requires |sep| > 0
    ensures forall k :: 0 <= k < |Split(s, sep)| ==> !Contains(Split(s, sep)[k], sep)
    decreases |s|
  {
    match Find(s, sep)
    case None =>
    case Some(i) =>
      var rest := s[i + |sep|..];
      var tail := Split(rest, sep);
      var pieces := Split(s, sep);
      assert pieces == [s[..i]] + tail;
      SplitPiecesFree(rest, sep);
      forall k | 0 <= k < |pieces|
        ensures !Contains(pieces[k], sep)
      {
        if k == 0 {
          BeforeFirstFree(s, sep, i);
        } else {
          assert pieces[k] == tail[k - 1];
        }
      }
  }

  /** The text before the first occurrence does not contain the pattern. */
  lemma BeforeFirstFree(s: string, sep: string, i: nat)
    requires |sep| > 0 && Find(s, sep) == Some(i)
    ensures !Contains(s[..i], sep)
  {
    if Contains(s[..i], sep) {
      var j := Find(s[..i], sep).value;
      IsAtTake(s, sep, i, j);
      assert false;
    }
  }

  /** `s.split(sep)[0]` is the text before the first separator, or all of `s`. */
  lemma SplitHead(s: string, sep: string)
    requires |sep| > 0
    ensures Split(s, sep)[0] == (match Find(s, sep) case None => s case Some(i) => s[..i])
  {
  }

  /** `s.split(sep)[1]` exists exactly when `sep` occurs in `s`; it is the text between the first
      occurrence and the next one (or the end of `s`). */
  lemma SplitSecond(s: string, sep: string)
    requires |sep| > 0
    ensures |Split(s, sep)| >= 2 <==> Contains(s, sep)
    ensures Contains(s, sep) ==>
      var rest := s[Find(s, sep).value + |sep|..];
      Split(s, sep)[1] == (match Find(rest, sep) case None => rest case Some(k) => rest[..k])
  {
  }

  /** For a head-unique separator, unpacking `s.split(sep)` into exactly two values succeeds
      exactly when `sep` occurs once in `s`. */
  lemma SplitTwoIffOnce(s: string, sep: string)
    requires HeadUnique(sep)
    ensures |Split(s, sep)| == 2 <==> OccursOnce(s, sep)
  {
    match Find(s, sep)
    case None =>
    case Some(i) =>
      var d := i + |sep|;
      var rest := s[d..];
      if |Split(s, sep)| == 2 {
        assert |Split(rest, sep)| == 1;
        forall j: nat | IsAt(s, sep, j)
          ensures j == i
        {
          if j > i {
            NoOverlap(s, sep, i, j);
            IsAtDrop(s, sep, d, j - d);
          }
        }
        assert IsAt(s, sep, i);
      } else {
        assert |Split(rest, sep)| >= 2;
        var k := Find(rest, sep).value;
        IsAtDrop(s, sep, d, k);
        assert IsAt(s, sep, k + d) && IsAt(s, sep, i) && k + d != i;
      }
  }

  /** Cutting `s` at the first separator and keeping the left part: the result is the longest
      prefix of `s` free of `sep`, and it ends where `sep` starts (or at the end of `s`). */
  predicate PrefixUpTo(s: string, sep: string, f: string)
  {
    f <= s && !Contains(f, sep) && (|f| == |s| || IsAt(s, sep, |f|))
  }

  /** For a head-unique separator, `PrefixUpTo` pins down a single string. */
  lemma PrefixUpToUnique(s: string, sep: string, f: string, g: string)
    requires HeadUnique(sep) && PrefixUpTo(s, sep, f) && PrefixUpTo(s, sep, g)
    ensures f == g
  {
    ShorterNotUpTo(s, sep, f, g);
    ShorterNotUpTo(s, sep, g, f);
    assert f == s[..|f|] && g == s[..|g|];
  }

  /** A strict prefix of the cut point is not the cut point. */
  lemma ShorterNotUpTo(s: string, sep: string, f: string, g: string)
    requires HeadUnique(sep) && PrefixUpTo(s, sep, g) && f <= s && (|f| == |s| || IsAt(s, sep, |f|))
    ensures |g| <= |f|
  {
    if |f| < |g| {
      if |f| + |sep| <= |g| {
        assert g == s[..|g|];
        IsAtTake(s, sep, |g|, |f|);
        ContainsIff(g, sep);
      } else if |g| < |s| {
        NoOverlap(s, sep, |f|, |g|);
      }
    }
  }

  /** `s.split(sep)[0]` is the part of `s` up to the first separator. */
  lemma SplitHeadUpTo(s: string, sep: string)
    requires |sep| > 0
    ensures PrefixUpTo(s, sep, Split(s, sep)[0])
  {
    SplitPiecesFree(s, sep);
  }

  // ---------------------------------------------------------------------------
  // Locating separators in assembled strings

  /** When the first character of `pat` can only occur at the front of `s`, `pat` occurs in `s`
      exactly when `s` starts with it. */
  lemma OnlyHeadCandidate(s: string, pat: string)
    requires |pat| > 0 && |s| > 0 && pat[0] !in s[1..]
    ensures Contains(s, pat) <==> IsAt(s, pat, 0)
  {
    forall j: nat | 0 < j
      ensures !IsAt(s, pat, j)
    {
      if j + |pat| <= |s| {
        assert s[j..j + |pat|][0] == s[j] == s[1..][j - 1];
      }
    }
    ContainsIff(s, pat);
  }

  /** Joining two strings creates no occurrence of `pat` when the left one is long enough to
      hold any occurrence that starts in it. */
  lemma NoMatchConcat(x: string, y: string, pat: string)
    requires |pat| > 0 && |x| >= |pat| && pat[0] !in x[1..]
    requires !Contains(x, pat) && !Contains(y, pat)
    ensures !Contains(x + y, pat)
  {
    var s := x + y;
    forall j: nat
      ensures !IsAt(s, pat, j)
    {
      if j == 0 {
        assert s[..|x|] == x;
        IsAtTake(s, pat, |x|, 0);
        ContainsIff(x, pat);
      } else if j < |x| {
        if j + |pat| <= |s| {
          assert s[j..j + |pat|][0] == s[j] == x[1..][j - 1];
        }
      } else {
        assert s[|x|..] == y;
        IsAtDrop(s, pat, |x|, j - |x|);
        ContainsIff(y, pat);
      }
    }
    ContainsIff(s, pat);
  }

  /** The first occurrence of a head-unique `pat` in `a + pat + b` is the one after `a`, provided
      `a` itself does not contain `pat`. */
  lemma FindAfter(a: string, pat: string, b: string)
    requires HeadUnique(pat) && !Contains(a, pat)
    ensures Find(a + pat + b, pat) == Some(|a|)
  {
    var s := a + pat + b;
    assert s[|a|..|a| + |pat|] == pat;
    assert s[..|a|] == a;
    forall j: nat | j < |a|
      ensures !IsAt(s, pat, j)
    {
      if IsAt(s, pat, j) {
        if j + |pat| <= |a| {
          IsAtTake(s, pat, |a|, j);
          ContainsIff(a, pat);
        } else {
          NoOverlap(s, pat, j, |a|);
        }
      }
    }
    assert IsAt(s, pat, |a|);
    var k := Find(s, pat).value;
    assert !(k < |a|) && !(|a| < k);
  }

  /** Splitting `a + sep + b` where neither side holds the separator gives exactly `[a, b]`. */
  lemma SplitAround(a: string, sep: string, b: string)
    requires HeadUnique(sep) && !Contains(a, sep) && !Contains(b, sep)
    ensures Split(a + sep + b, sep) == [a, b]
  {
    var s := a + sep + b;
    FindAfter(a, sep, b);
    SplitUnfold(s, sep, |a|);
    assert s[..|a|] == a;
    assert s[|a| + |sep|..] == b;
  }

  /** A prefix lacking the first character of `pat` cannot hide an occurrence. */
  lemma SkipHeadless(u: string, v: string, pat: string)
    requires |pat| > 0 && pat[0] !in u
    ensures Contains(u + v, pat) <==> Contains(v, pat)
  {
    var s := u + v;
    assert s[|u|..] == v;
    forall j: nat
      ensures IsAt(s, pat, j) <==> j >= |u| && IsAt(v, pat, j - |u|)
    {
      if j < |u| && j + |pat| <= |s| {
        assert s[j..j + |pat|][0] == s[j] == u[j];
      }
      if j >= |u| {
        IsAtDrop(s, pat, |u|, j - |u|);
      }
    }
    ContainsIff(s, pat);
    ContainsIff(v, pat);
    if Contains(v, pat) {
      var k := Find(v, pat).value;
      assert IsAt(s, pat, k + |u|);
    }
  }

  /** `s.split(sep)[1]` is the text after the first separator, cut at the next one. */
  lemma SplitSecondUpTo(s: string, sep: string, i: nat)
    requires |sep| > 0 && Find(s, sep) == Some(i)
    ensures i + |sep| <= |s| && |Split(s, sep)| >= 2
    ensures PrefixUpTo(s[i + |sep|..], sep, Split(s, sep)[1])
  {
    var rest := s[i + |sep|..];
    var tail := Split(rest, sep);
    SplitUnfold(s, sep, i);
    assert Split(s, sep)[1] == tail[0];
    SplitHeadUpTo(rest, sep);
  }
}
