/**
 * The PHP string primitives that the placeholder normaliser is built from:
 * trim(), str_replace() and the collapsing of runs of one character
 * (the regular expressions /\n{3,}/ and /%+/), written as recursive functions.
 */
module Text {

  /** The characters that PHP's trim() strips by default: " \t\n\r\0\x0B". */
  predicate IsSpace(c: char) {
    c == ' ' || c == '\t' || c == '\n' || c == '\r' || c == '\0' || c == '\U{B}'
  }

  /** Every character is whitespace as trim() counts it. */
  predicate AllSpace(s: string) {
    forall i :: 0 <= i < |s| ==> IsSpace(s[i])
  }

  /** `s` is empty or neither starts nor ends with a trim() character. */
  predicate Trimmed(s: string) {
    s == [] || (!IsSpace(s[0]) && !IsSpace(s[|s| - 1]))
  }

  /** The number of trim() characters at the start of `s`. */
  function LeadSpaces(s: string): (n: nat)
    ensures n <= |s|
    ensures AllSpace(s[..n])
    ensures n < |s| ==> !IsSpace(s[n])
  {
    if |s| > 0 && IsSpace(s[0]) then 1 + LeadSpaces(s[1..]) else 0
  }

  /** The number of trim() characters at the end of `s`. */
  function TrailSpaces(s: string): (n: nat)
    ensures n <= |s|
    ensures AllSpace(s[|s| - n..])
    ensures n < |s| ==> !IsSpace(s[|s| - 1 - n])
  {
    if |s| > 0 && IsSpace(s[|s| - 1]) then 1 + TrailSpaces(s[..|s| - 1]) else 0
  }

  /** PHP trim($s): `s` with its leading and trailing whitespace removed. */
  function Trim(s: string): (r: string)
    ensures Trimmed(r)
    ensures |r| <= |s| && (|r| == |s| ==> r == s)
    ensures forall c :: c in r ==> c in s
  {
    var l := s[LeadSpaces(s)..];
    l[..|l| - TrailSpaces(l)]
  }

  /** Leading whitespace followed by a non-space start is counted exactly. */
  lemma {:induction false} LeadSpacesOf(a: string, t: string)
    requires AllSpace(a) && (t == [] || !IsSpace(t[0]))
    ensures LeadSpaces(a + t) == |a|
    decreases |a|
  {
    if a == [] {
      assert a + t == t;
    } else {
      assert (a + t)[1..] == a[1..] + t;
      LeadSpacesOf(a[1..], t);
    }
  }

  /** Trailing whitespace after a non-space end is counted exactly. */
  lemma {:induction false} TrailSpacesOf(t: string, b: string)
    requires AllSpace(b) && (t == [] || !IsSpace(t[|t| - 1]))
    ensures TrailSpaces(t + b) == |b|
    decreases |b|
  {
    if b == [] {
      assert t + b == t;
    } else {
      assert (t + b)[..|t + b| - 1] == t + b[..|b| - 1];
      TrailSpacesOf(t, b[..|b| - 1]);
    }
  }

  /** The stripped text is determined: any split of `s` into whitespace, a trimmed core and whitespace has trim($s) as its core. */
  lemma TrimUnique(s: string, a: string, c: string, b: string)
    requires s == a + c + b && AllSpace(a) && AllSpace(b) && Trimmed(c)
    ensures Trim(s) == c
  {
    if c == [] {
      assert s == (a + b) + [];
      LeadSpacesOf(a + b, []);
    } else {
      assert s == a + (c + b);
      LeadSpacesOf(a, c + b);
      assert s[|a|..] == c + b;
      TrailSpacesOf(c, b);
      assert (c + b)[..|c|] == c;
    }
  }

  /** Cutting a text at two points and joining the three pieces gives it back. */
  lemma SplitThree(s: string, i: nat, j: nat)
    requires i <= |s| && j <= |s| - i
    ensures s == s[..i] + s[i..][..j] + s[i..][j..]
  {
    assert s[i..] == s[i..][..j] + s[i..][j..];
    assert s == s[..i] + s[i..];
  }

  /** `s` splits into leading whitespace, trim($s) and trailing whitespace. */
  lemma TrimSplit(s: string) returns (a: string, b: string)
    ensures s == a + Trim(s) + b && AllSpace(a) && AllSpace(b)
  {
    var n := LeadSpaces(s);
    var l := s[n..];
    var m := |l| - TrailSpaces(l);
    a, b := s[..n], l[m..];
    assert AllSpace(a) && AllSpace(b);
    assert s == a + Trim(s) + b by {
      SplitThree(s, n, m);
    }
  }

  /** trim() ignores whitespace added around its argument. */
  lemma TrimSurrounded(pre: string, t: string, post: string)
    requires AllSpace(pre) && AllSpace(post)
    ensures Trim(pre + t + post) == Trim(t)
  {
    var a, b := TrimSplit(t);
    var c := Trim(t);
    AllSpaceConcat(pre, a);
    AllSpaceConcat(b, post);
    Regroup(pre, a, c, b, post);
    TrimUnique(pre + t + post, pre + a, c, b + post);
  }

  /** Whitespace followed by whitespace is whitespace. */
  lemma AllSpaceConcat(x: string, y: string)
    requires AllSpace(x) && AllSpace(y)
    ensures AllSpace(x + y)
  {
  }

  /** Five pieces joined in order, grouped two ways. */
  lemma Regroup(p: string, a: string, c: string, b: string, q: string)
    ensures p + (a + c + b) + q == (p + a) + c + (b + q)
  {
  }

  /** trim() applied to an already trimmed string changes nothing. */
  lemma TrimOfTrimmed(s: string)
    requires Trimmed(s)
    ensures Trim(s) == s
  {
    assert s == [] + s + [];
    TrimUnique(s, [], s, []);
  }

  /**
   * PHP str_replace($pat, $rep, $s): every occurrence of `pat`, found left to
   * right without overlapping, is replaced by `rep`.
   */
  function Replace(s: string, pat: string, rep: string): (r: string)
    requires |pat| > 0
    ensures |pat| == 1 && pat[0] !in rep ==> pat[0] !in r
    ensures |rep| <= |pat| ==> |r| <= |s|
    decreases |s|
  {
    if |s| < |pat| then s
    else if s[..|pat|] == pat then rep + Replace(s[|pat|..], pat, rep)
    else [s[0]] + Replace(s[1..], pat, rep)
  }

  /** str_replace brings in no character that is neither in the subject nor in the replacement. */
  lemma {:induction false} ReplaceNoNewChar(s: string, pat: string, rep: string, d: char)
    requires |pat| > 0 && d !in s && d !in rep
    ensures d !in Replace(s, pat, rep)
    decreases |s|
  {
    if |s| >= |pat| {
      if s[..|pat|] == pat {
        assert s == s[..|pat|] + s[|pat|..];
        ReplaceNoNewChar(s[|pat|..], pat, rep, d);
      } else {
        ReplaceNoNewChar(s[1..], pat, rep, d);
      }
    }
  }

  /** Replacing a pattern whose first character does not occur changes nothing. */
  lemma {:induction false} ReplaceAbsent(s: string, pat: string, rep: string)
    requires |pat| > 0 && pat[0] !in s
    ensures Replace(s, pat, rep) == s
    decreases |s|
  {
    if |s| >= |pat| {
      assert s[..|pat|] != pat by { assert s[..|pat|][0] == s[0]; }
      ReplaceAbsent(s[1..], pat, rep);
      assert [s[0]] + s[1..] == s;
    }
  }

  /** str_replace copies a prefix free of the pattern's first character. */
  lemma {:induction false} ReplaceSkip(p: string, q: string, pat: string, rep: string)
    requires |pat| > 0 && pat[0] !in p
    ensures Replace(p + q, pat, rep) == p + Replace(q, pat, rep)
    decreases |p|
  {
    if p != [] {
      var s := p + q;
      if |s| >= |pat| {
        assert s[..|pat|] != pat by { assert s[..|pat|][0] == s[0] == p[0]; }
      }
      assert s[1..] == p[1..] + q;
      ReplaceSkip(p[1..], q, pat, rep);
      assert [p[0]] + p[1..] == p;
    } else {
      assert p + q == q;
    }
  }

  /** An occurrence at the head of the subject is replaced. */
  lemma ReplaceAtHead(q: string, pat: string, rep: string)
    requires |pat| > 0
    ensures Replace(pat + q, pat, rep) == rep + Replace(q, pat, rep)
  {
    assert (pat + q)[..|pat|] == pat;
    assert (pat + q)[|pat|..] == q;
  }

  /** Concatenation is associative. */
  lemma ConcatAssoc(a: string, b: string, c: string)
    ensures a + (b + c) == a + b + c
  {
  }

  /** A single occurrence between texts without the pattern's first character is the one str_replace replaces. */
  lemma ReplaceBetween(p: string, q: string, pat: string, rep: string)
    requires |pat| > 0 && pat[0] !in p && pat[0] !in q
    ensures Replace(p + pat + q, pat, rep) == p + rep + q
  {
    assert p + pat + q == p + (pat + q);
    ReplaceSkip(p, pat + q, pat, rep);
    ReplaceAtHead(q, pat, rep);
    ReplaceAbsent(q, pat, rep);
    assert p + (rep + q) == p + rep + q;
  }

  /** The number of leading copies of `c` in `s`. */
  function LeadRun(s: string, c: char): (n: nat)
    ensures n <= |s|
    ensures forall i :: 0 <= i < n ==> s[i] == c
    ensures n < |s| ==> s[n] != c
  {
    if |s| > 0 && s[0] == c then 1 + LeadRun(s[1..], c) else 0
  }

  /** A block of one character followed by something else is a leading run of exactly its length. */
  lemma {:induction false} LeadRunOfBlock(a: string, b: string, c: char)
    requires forall i :: 0 <= i < |a| ==> a[i] == c
    requires b == [] || b[0] != c
    ensures LeadRun(a + b, c) == |a|
    decreases |a|
  {
    if a == [] {
      assert a + b == b;
    } else {
      assert (a + b)[1..] == a[1..] + b;
      LeadRunOfBlock(a[1..], b, c);
    }
  }

  /**
   * Every maximal run of `c` in `s` of length at least `min` replaced by
   * `repl`; shorter runs are kept. preg_replace("/cc..c+/", repl, s) with
   * `min` copies of `c` in the pattern.
   */
  function CollapseRuns(s: string, c: char, min: nat, repl: string): (r: string)
    ensures |repl| <= min ==> |r| <= |s|
    ensures |s| > 0 && s[0] != c ==> |r| > 0 && r[0] == s[0]
    decreases |s|
  {
    if |s| == 0 then []
    else if s[0] == c then
      var n := LeadRun(s, c);
      (if n >= min then repl else s[..n]) + CollapseRuns(s[n..], c, min, repl)
    else [s[0]] + CollapseRuns(s[1..], c, min, repl)
  }

  /** Collapsing runs brings in no character that is neither in the subject nor in the replacement. */
  lemma {:induction false} CollapseNoNewChar(s: string, c: char, min: nat, repl: string, d: char)
    requires d !in s && d !in repl
    ensures d !in CollapseRuns(s, c, min, repl)
    decreases |s|
  {
    if |s| > 0 {
      if s[0] == c {
        var n := LeadRun(s, c);
        assert s == s[..n] + s[n..];
        CollapseNoNewChar(s[n..], c, min, repl, d);
      } else {
        CollapseNoNewChar(s[1..], c, min, repl, d);
      }
    }
  }

  /** Collapsing runs of a character that does not occur changes nothing. */
  lemma {:induction false} CollapseAbsent(s: string, c: char, min: nat, repl: string)
    requires c !in s
    ensures CollapseRuns(s, c, min, repl) == s
    decreases |s|
  {
    if |s| > 0 {
      CollapseAbsent(s[1..], c, min, repl);
      assert [s[0]] + s[1..] == s;
    }
  }

  /** All characters of `s` are `c`. */
  predicate Block(s: string, c: char) {
    forall i :: 0 <= i < |s| ==> s[i] == c
  }

  /** Positions `i` to `i + m - 1` of `s` all hold `c`. */
  predicate RunAt(s: string, c: char, i: nat, m: nat) {
    i + m <= |s| && forall j :: i <= j < i + m ==> s[j] == c
  }

  /** `s` contains `m` consecutive copies of `c`. */
  predicate HasRun(s: string, c: char, m: nat) {
    exists i: nat | i <= |s| :: RunAt(s, c, i, m)
  }

  /** Every maximal run of `c` in `s` is at most `k` long. */
  predicate RunsAtMost(s: string, c: char, k: nat)
    decreases |s|
  {
    if |s| == 0 then true
    else if s[0] == c then LeadRun(s, c) <= k && RunsAtMost(s[LeadRun(s, c)..], c, k)
    else RunsAtMost(s[1..], c, k)
  }

  /** Every maximal run of `c` in `s` is exactly `k` long. */
  predicate RunsExactly(s: string, c: char, k: nat)
    decreases |s|
  {
    if |s| == 0 then true
    else if s[0] == c then LeadRun(s, c) == k && RunsExactly(s[LeadRun(s, c)..], c, k)
    else RunsExactly(s[1..], c, k)
  }

  /** Bounded runs mean no `k + 1` consecutive copies of `c` anywhere. */
  lemma {:induction false} RunsAtMostNoLongerRun(s: string, c: char, k: nat)
    requires RunsAtMost(s, c, k)
    ensures !HasRun(s, c, k + 1)
    decreases |s|
  {
    if |s| > 0 {
      var n := if s[0] == c then LeadRun(s, c) else 1;
      RunsAtMostNoLongerRun(s[n..], c, k);
      var m := k + 1;
      forall i: nat | i <= |s|
        ensures !RunAt(s, c, i, m)
      {
        if i >= n {
          assert RunAt(s, c, i, m) ==> RunAt(s[n..], c, i - n, m);
        }
      }
    }
  }

  /** After collapsing with a replacement made of at most `k` copies of `c`, no run is longer than `k`. */
  lemma {:induction false} CollapseBoundsRuns(s: string, c: char, min: nat, repl: string, k: nat)
    requires Block(repl, c) && |repl| <= k && min <= k + 1
    ensures RunsAtMost(CollapseRuns(s, c, min, repl), c, k)
    decreases |s|
  {
    if |s| > 0 {
      if s[0] == c {
        var n := LeadRun(s, c);
        var piece := if n >= min then repl else s[..n];
        var rest := CollapseRuns(s[n..], c, min, repl);
        CollapseBoundsRuns(s[n..], c, min, repl, k);
        assert rest == [] || rest[0] != c;
        if piece != [] {
          LeadRunOfBlock(piece, rest, c);
          assert (piece + rest)[|piece|..] == rest;
        } else {
          assert piece + rest == rest;
        }
      } else {
        var rest := CollapseRuns(s[1..], c, min, repl);
        CollapseBoundsRuns(s[1..], c, min, repl, k);
        assert ([s[0]] + rest)[1..] == rest;
      }
    }
  }

  /** Collapsing twice is collapsing once, when the replacement is itself a nonempty run of `c`. */
  lemma {:induction false} CollapseIdempotent(s: string, c: char, min: nat, repl: string)
    requires Block(repl, c) && |repl| > 0
    ensures CollapseRuns(CollapseRuns(s, c, min, repl), c, min, repl) == CollapseRuns(s, c, min, repl)
    decreases |s|
  {
    if |s| > 0 {
      if s[0] == c {
        var n := LeadRun(s, c);
        var piece := if n >= min then repl else s[..n];
        var rest := CollapseRuns(s[n..], c, min, repl);
        CollapseIdempotent(s[n..], c, min, repl);
        assert rest == [] || rest[0] != c;
        LeadRunOfBlock(piece, rest, c);
        assert (piece + rest)[|piece|..] == rest;
        assert (piece + rest)[0] == c;
        assert (if |piece| >= min then repl else (piece + rest)[..|piece|]) == piece;
      } else {
        var rest := CollapseRuns(s[1..], c, min, repl);
        CollapseIdempotent(s[1..], c, min, repl);
        assert ([s[0]] + rest)[1..] == rest;
      }
    }
  }

  /** Collapsing changes nothing when every run of `c` is shorter than `min`. */
  lemma {:induction false} CollapseShortRuns(s: string, c: char, min: nat, repl: string)
    requires min >= 1 && RunsAtMost(s, c, min - 1)
    ensures CollapseRuns(s, c, min, repl) == s
    decreases |s|
  {
    if |s| > 0 {
      var n := if s[0] == c then LeadRun(s, c) else 1;
      CollapseShortRuns(s[n..], c, min, repl);
      assert s[..n] + s[n..] == s;
    }
  }

  /** Doubling each `c` turns runs of length one into runs of length exactly two. */
  lemma {:induction false} DoublingMakesPairs(s: string, c: char)
    requires RunsAtMost(s, c, 1)
    ensures RunsExactly(Replace(s, [c], [c, c]), c, 2)
    decreases |s|
  {
    if |s| > 0 {
      var rest := Replace(s[1..], [c], [c, c]);
      DoublingMakesPairs(s[1..], c);
      assert s[..1] == [c] <==> s[0] == c;
      if s[0] == c {
        assert LeadRun(s, c) == 1;
        assert s[1..] == [] || s[1] != c;
        assert rest == [] || rest[0] != c by {
          if s[1..] != [] {
            assert s[1..][..1] != [c];
            assert rest == [s[1]] + Replace(s[2..], [c], [c, c]) by { assert s[1..][1..] == s[2..]; }
          }
        }
        LeadRunOfBlock([c, c], rest, c);
        assert ([c, c] + rest)[2..] == rest;
      } else {
        assert ([s[0]] + rest)[1..] == rest;
      }
    }
  }
}
