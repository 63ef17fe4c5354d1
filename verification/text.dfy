/** The handful of Python string operations the adjuster relies on:
    `str.lower`, `str.lstrip`, `str.startswith`, the `in` substring test and
    `str.replace`. */
module Text {

  /** `str.lower` on one character; only ASCII letters change. */
  function LowerChar(c: char): char {
    if 'A' <= c <= 'Z' then (c as int - 'A' as int + 'a' as int) as char else c
  }

  /** `str.lower`, character by character. */
  function Lower(s: string): (r: string)
    ensures |r| == |s|
  {
    seq(|s|, i requires 0 <= i < |s| => LowerChar(s[i]))
  }

  /** What `Lower` does to each character: no upper-case ASCII letter is
      left, each one becomes the lower-case letter at the same place in the
      alphabet, and every other character is kept. */
  lemma LowerCases(s: string)
    ensures forall i :: 0 <= i < |s| ==> !('A' <= Lower(s)[i] <= 'Z')
    ensures forall i :: 0 <= i < |s| && 'A' <= s[i] <= 'Z' ==>
      'a' <= Lower(s)[i] <= 'z' && Lower(s)[i] as int - 'a' as int == s[i] as int - 'A' as int
    ensures forall i :: 0 <= i < |s| && !('A' <= s[i] <= 'Z') ==> Lower(s)[i] == s[i]
  {
  }

  /** Lower-casing twice changes nothing more. */
  lemma LowerIdempotent(s: string)
    ensures Lower(Lower(s)) == Lower(s)
  {
  }

  /** The characters for which Python's `str.isspace` holds. */
  predicate IsWhitespace(c: char) {
    || c == ' '
    || '\t' <= c <= '\r'
    || '\U{1c}' <= c <= '\U{1f}'
    || c == '\U{85}' || c == '\U{a0}' || c == '\U{1680}'
    || '\U{2000}' <= c <= '\U{200a}'
    || c == '\U{2028}' || c == '\U{2029}' || c == '\U{202f}' || c == '\U{205f}'
    || c == '\U{3000}'
  }

  /** `str.lstrip()`: the longest suffix of `s` that does not start with
      whitespace, everything before it being whitespace. */
  function LStrip(s: string): (r: string)
    ensures |r| <= |s| && r == s[|s| - |r|..]
    ensures forall i :: 0 <= i < |s| - |r| ==> IsWhitespace(s[i])
    ensures r == [] || !IsWhitespace(r[0])
  {
    if |s| > 0 && IsWhitespace(s[0]) then LStrip(s[1..]) else s
  }

  /** `s.startswith(p)`. */
  predicate StartsWith(s: string, p: string) {
    |p| <= |s| && s[..|p|] == p
  }

  /** `s.endswith(p)`. */
  predicate EndsWith(s: string, p: string) {
    |p| <= |s| && s[|s| - |p|..] == p
  }

  /** `p in s`: `p` occurs somewhere in `s`. */
  predicate Contains(s: string, p: string)
    decreases |s|
  {
    |p| <= |s| && (s[..|p|] == p || (|s| > 0 && Contains(s[1..], p)))
  }

  /** `s.replace(pat, rep)`: scanning left to right, every non-overlapping
      occurrence of `pat` becomes `rep`. */
  function Replace(s: string, pat: string, rep: string): string
    requires |pat| > 0
    decreases |s|
  {
    if |s| < |pat| then s
    else if s[..|pat|] == pat then rep + Replace(s[|pat|..], pat, rep)
    else [s[0]] + Replace(s[1..], pat, rep)
  }

  /** Text without an occurrence comes back unchanged. */
  lemma {:induction false} ReplaceAbsent(s: string, pat: string, rep: string)
    requires |pat| > 0
    ensures !Contains(s, pat) ==> Replace(s, pat, rep) == s
    decreases |s|
  {
    if |s| >= |pat| && !Contains(s, pat) {
      assert s[..|pat|] != pat;
      ReplaceAbsent(s[1..], pat, rep);
      assert s == [s[0]] + s[1..];
    }
  }

  /** A replacement no longer than the pattern never lengthens the text,
      and a strictly shorter one shortens any text with an occurrence. */
  lemma {:induction false} ReplaceShrinks(s: string, pat: string, rep: string)
    requires |pat| > 0 && |rep| <= |pat|
    ensures |Replace(s, pat, rep)| <= |s|
    ensures |rep| < |pat| && Contains(s, pat) ==> |Replace(s, pat, rep)| < |s|
    decreases |s|
  {
    if |s| >= |pat| {
      if s[..|pat|] == pat {
        ReplaceShrinks(s[|pat|..], pat, rep);
      } else {
        ReplaceShrinks(s[1..], pat, rep);
      }
    }
  }

  /** No occurrence of `p` starts before position `k` of `s`. */
  predicate NoneBefore(s: string, p: string, k: nat) {
    forall i: nat :: i < k ==> !OccursAt(s, p, i)
  }

  /** Up to the first occurrence `Replace` copies the text unchanged. */
  lemma {:induction false} ReplacePlain(s: string, pat: string, rep: string, k: nat)
    requires |pat| > 0 && k <= |s| && NoneBefore(s, pat, k)
    ensures Replace(s, pat, rep) == s[..k] + Replace(s[k..], pat, rep)
    decreases k
  {
    if k > 0 {
      var t := s[1..];
      NoneBeforeShift(s, pat, k);
      ReplacePlain(t, pat, rep, k - 1);
      ReplaceCons(s, pat, rep);
      SlicesShift(s, k);
      ConsChain(Replace(s, pat, rep), Replace(t, pat, rep), s[0], t[..k - 1], Replace(t[k - 1..], pat, rep),
                Replace(s[k..], pat, rep), s[..k]);
    }
  }

  /** Dropping the first character keeps the earlier positions free. */
  lemma NoneBeforeShift(s: string, pat: string, k: nat)
    requires 0 < k <= |s| && NoneBefore(s, pat, k)
    ensures NoneBefore(s[1..], pat, k - 1)
  {
    forall i: nat | i < k - 1
      ensures !OccursAt(s[1..], pat, i)
    {
      OccursShift(s, pat, i);
    }
  }

  /** `Replace` copies a first character that starts no occurrence. */
  lemma ReplaceCons(s: string, pat: string, rep: string)
    requires |pat| > 0 && |s| > 0 && !OccursAt(s, pat, 0)
    ensures Replace(s, pat, rep) == [s[0]] + Replace(s[1..], pat, rep)
  {
    if |s| < |pat| {
      assert s == [s[0]] + s[1..];
    }
  }

  /** Slicing after dropping the first character. */
  lemma SlicesShift(s: string, k: nat)
    requires 0 < k <= |s|
    ensures s[1..][k - 1..] == s[k..]
    ensures s[..k] == [s[0]] + s[1..][..k - 1]
  {
  }

  /** Putting the pieces of one step of `Replace` back together. */
  lemma ConsChain(r: string, r1: string, c: char, a: string, d1: string, d: string, p: string)
    requires r == [c] + r1
    requires r1 == a + d1
    requires d1 == d
    requires p == [c] + a
    ensures r == p + d
  {
  }

  /** The first occurrence of `pat` becomes `rep`: the text before it is
      kept and the scan carries on after it.  With `ReplaceAbsent` this
      determines `Replace` on every text. */
  lemma ReplaceFirst(pre: string, pat: string, rep: string, post: string)
    requires |pat| > 0
    requires forall i: nat :: i < |pre| ==> !OccursAt(pre + pat + post, pat, i)
    ensures Replace(pre + pat + post, pat, rep) == pre + rep + Replace(post, pat, rep)
  {
    var s := pre + pat + post;
    assert NoneBefore(s, pat, |pre|);
    ReplacePlain(s, pat, rep, |pre|);
    assert s[..|pre|] == pre;
    assert s[|pre|..] == pat + post;
    ReplaceHead(pat, rep, post);
  }

  /** A text starting with `pat` starts with `rep` once replaced. */
  lemma ReplaceHead(pat: string, rep: string, post: string)
    requires |pat| > 0
    ensures Replace(pat + post, pat, rep) == rep + Replace(post, pat, rep)
  {
    assert (pat + post)[..|pat|] == pat;
    assert (pat + post)[|pat|..] == post;
  }

  /** `rep` cannot combine with its surroundings into a new `pat`: both start
      with the same character, that character occurs nowhere else in either,
      and neither is a prefix of the other. */
  predicate SelfDelimiting(pat: string, rep: string) {
    && |pat| > 0 && |rep| > 0 && rep[0] == pat[0]
    && (forall j :: 0 < j < |pat| ==> pat[j] != pat[0])
    && (forall j :: 0 < j < |rep| ==> rep[j] != pat[0])
    && !StartsWith(rep, pat) && !StartsWith(pat, rep)
  }

  /** A stretch of `Replace`'s result free of `pat`'s first character was
      copied from the input unchanged. */
  lemma {:induction false} ReplaceKeepsPlain(t: string, pat: string, rep: string, n: nat)
    requires |pat| > 0 && |rep| > 0 && rep[0] == pat[0]
    requires n <= |Replace(t, pat, rep)|
    ensures (forall j :: 0 <= j < n ==> Replace(t, pat, rep)[j] != pat[0]) ==>
      n <= |t| && Replace(t, pat, rep)[..n] == t[..n]
    decreases |t|
  {
    var r := Replace(t, pat, rep);
    if |t| >= |pat| && t[..|pat|] != pat && n > 0 {
      var r1 := Replace(t[1..], pat, rep);
      assert r == [t[0]] + r1;
      ReplaceKeepsPlain(t[1..], pat, rep, n - 1);
      if forall j :: 0 <= j < n ==> r[j] != pat[0] {
        forall j | 0 <= j < n - 1
          ensures r1[j] != pat[0]
        {
          assert r1[j] == r[j + 1];
        }
        assert r[..n] == [t[0]] + r1[..n - 1];
        assert t[..n] == [t[0]] + t[1..][..n - 1];
      }
    } else if |t| >= |pat| && n > 0 {
      assert r[0] == rep[0];
    }
  }

  /** The step `Replace` takes when `s` does not start with `pat`. */
  lemma ReplaceStep(s: string, pat: string, rep: string)
    requires 0 < |pat| <= |s| && s[..|pat|] != pat
    ensures Replace(s, pat, rep) == [s[0]] + Replace(s[1..], pat, rep)
  {
  }

  /** When the replaced rest holds no first character of `pat` early on,
      the replaced text starts as the text itself does. */
  lemma PlainStartCopied(s: string, pat: string, rep: string)
    requires |pat| > 0 && |rep| > 0 && rep[0] == pat[0]
    requires |pat| <= |s| && s[..|pat|] != pat
    requires |pat| <= |Replace(s, pat, rep)|
    requires forall j :: 0 <= j < |pat| - 1 ==> Replace(s[1..], pat, rep)[j] != pat[0]
    ensures Replace(s, pat, rep)[..|pat|] == s[..|pat|]
  {
    ReplaceStep(s, pat, rep);
    ReplaceKeepsPlain(s[1..], pat, rep, |pat| - 1);
    assert s == [s[0]] + s[1..];
    TakeCons(s[0], Replace(s[1..], pat, rep), s[1..], |pat| - 1);
  }

  /** Equal prefixes stay equal behind the same first character. */
  lemma TakeCons(c: char, x: string, y: string, n: nat)
    requires n <= |x| && n <= |y| && x[..n] == y[..n]
    ensures ([c] + x)[..n + 1] == ([c] + y)[..n + 1]
  {
    assert ([c] + x)[..n + 1] == [c] + x[..n];
    assert ([c] + y)[..n + 1] == [c] + y[..n];
  }

  /** A first character of `pat` past position 0 and within reach rules out
      an occurrence at 0. */
  lemma StrayFirstChar(r: string, pat: string, j: nat)
    requires 0 < j < |pat| && j < |r| && r[j] == pat[0]
    requires forall k :: 0 < k < |pat| ==> pat[k] != pat[0]
    ensures !OccursAt(r, pat, 0)
  {
    if |pat| <= |r| {
      assert r[..|pat|][j] == r[j];
    }
  }

  /** A text not starting with `pat` does not start with `pat` once
      replaced either. */
  lemma ReplaceNoNewStart(s: string, pat: string, rep: string)
    requires SelfDelimiting(pat, rep)
    requires |s| >= |pat| && s[..|pat|] != pat
    ensures !OccursAt(Replace(s, pat, rep), pat, 0)
  {
    var r := Replace(s, pat, rep);
    var r1 := Replace(s[1..], pat, rep);
    ReplaceStep(s, pat, rep);
    if |pat| <= |r| {
      if forall j :: 0 <= j < |pat| - 1 ==> r1[j] != pat[0] {
        PlainStartCopied(s, pat, rep);
      } else {
        var j :| 0 <= j < |pat| - 1 && r1[j] == pat[0];
        StrayFirstChar(r, pat, j + 1);
      }
    }
  }

  /** No occurrence of `pat` starts inside an inserted `rep`. */
  lemma NoneInReplacement(pat: string, rep: string, rest: string, i: nat)
    requires SelfDelimiting(pat, rep) && i < |rep|
    ensures !OccursAt(rep + rest, pat, i)
  {
    var r := rep + rest;
    if i > 0 {
      if i + |pat| <= |r| {
        assert r[i..i + |pat|][0] == rep[i];
      }
    } else if |pat| <= |r| {
      if |rep| >= |pat| {
        assert r[..|pat|] == rep[..|pat|];
      } else {
        assert r[..|pat|][..|rep|] == rep;
      }
    }
  }

  /** No occurrence of `pat` is left at position `i` of the replaced text. */
  lemma {:induction false} ReplaceLeavesNoneAt(s: string, pat: string, rep: string, i: nat)
    requires SelfDelimiting(pat, rep)
    ensures !OccursAt(Replace(s, pat, rep), pat, i)
    decreases |s|
  {
    var r := Replace(s, pat, rep);
    if |s| >= |pat| && s[..|pat|] == pat {
      var r1 := Replace(s[|pat|..], pat, rep);
      assert r == rep + r1;
      if i >= |rep| {
        ReplaceLeavesNoneAt(s[|pat|..], pat, rep, i - |rep|);
        OccursAfter(rep, r1, pat, i - |rep|);
      } else {
        NoneInReplacement(pat, rep, r1, i);
      }
    } else if |s| >= |pat| {
      var r1 := Replace(s[1..], pat, rep);
      ReplaceStep(s, pat, rep);
      if i > 0 {
        ReplaceLeavesNoneAt(s[1..], pat, rep, i - 1);
        OccursAfter([s[0]], r1, pat, i - 1);
      } else {
        ReplaceNoNewStart(s, pat, rep);
      }
    }
  }

  /** With a self-delimiting pattern and replacement, `Replace` leaves no
      occurrence of the pattern behind. */
  lemma ReplaceLeavesNone(s: string, pat: string, rep: string)
    requires SelfDelimiting(pat, rep)
    ensures !Contains(Replace(s, pat, rep), pat)
  {
    forall i: nat
      ensures !OccursAt(Replace(s, pat, rep), pat, i)
    {
      ReplaceLeavesNoneAt(s, pat, rep, i);
    }
    NoOccurrence(Replace(s, pat, rep), pat);
  }

  /** `p` occurs in `s` starting at position `i`. */
  predicate OccursAt(s: string, p: string, i: nat) {
    i + |p| <= |s| && s[i..i + |p|] == p
  }

  /** Putting `a` in front moves every occurrence `|a|` places right. */
  lemma OccursAfter(a: string, b: string, p: string, i: nat)
    ensures OccursAt(a + b, p, |a| + i) <==> OccursAt(b, p, i)
  {
    if i + |p| <= |b| {
      assert (a + b)[|a| + i..|a| + i + |p|] == b[i..i + |p|];
    }
  }

  /** Dropping the first character moves every occurrence one place left. */
  lemma OccursShift(s: string, p: string, i: nat)
    requires |s| > 0
    ensures OccursAt(s[1..], p, i) <==> OccursAt(s, p, i + 1)
  {
    assert s == [s[0]] + s[1..];
    OccursAfter([s[0]], s[1..], p, i);
  }

  /** An occurrence at position `i` makes `p in s` hold. */
  lemma {:induction false} ContainsAt(s: string, p: string, i: nat)
    requires OccursAt(s, p, i)
    ensures Contains(s, p)
    decreases i
  {
    if i > 0 {
      assert s[1..][i - 1..i - 1 + |p|] == s[i..i + |p|];
      ContainsAt(s[1..], p, i - 1);
    }
  }

  /** `p in s` names a position where `p` occurs. */
  lemma {:induction false} OccurrenceOf(s: string, p: string) returns (i: nat)
    requires Contains(s, p)
    ensures OccursAt(s, p, i)
    decreases |s|
  {
    if s[..|p|] == p {
      i := 0;
    } else {
      var j := OccurrenceOf(s[1..], p);
      assert s[1..][j..j + |p|] == s[j + 1..j + 1 + |p|];
      i := j + 1;
    }
  }

  /** When `p in s` fails, no position of `s` holds an occurrence. */
  lemma {:induction false} NotContainsAt(s: string, p: string, i: nat)
    requires !Contains(s, p)
    ensures !OccursAt(s, p, i)
    decreases i
  {
    if i > 0 && i + |p| <= |s| {
      NotContainsAt(s[1..], p, i - 1);
      assert s[1..][i - 1..i - 1 + |p|] == s[i..i + |p|];
    }
  }

  /** `p in s` fails when no position of `s` holds an occurrence. */
  lemma {:induction false} NoOccurrence(s: string, p: string)
    requires forall i: nat :: !OccursAt(s, p, i)
    ensures !Contains(s, p)
    decreases |s|
  {
    if |p| <= |s| {
      assert !OccursAt(s, p, 0);
      if |s| > 0 {
        forall i: nat
          ensures !OccursAt(s[1..], p, i)
        {
          assert !OccursAt(s, p, i + 1);
          if i + |p| <= |s| - 1 {
            assert s[1..][i..i + |p|] == s[i + 1..i + 1 + |p|];
          }
        }
        NoOccurrence(s[1..], p);
      }
    }
  }

  /** `Lower` works character by character, so it distributes over
      concatenation and slicing. */
  lemma LowerAppend(a: string, b: string)
    ensures Lower(a + b) == Lower(a) + Lower(b)
  {
  }

  lemma LowerSlice(s: string, i: nat, j: nat)
    requires i <= j <= |s|
    ensures Lower(s)[i..j] == Lower(s[i..j])
  {
  }

  /** An occurrence of `p` puts its first character somewhere in `s`. */
  lemma {:induction false} ContainsFirstChar(s: string, p: string)
    requires |p| > 0 && Contains(s, p)
    ensures exists i :: 0 <= i < |s| && s[i] == p[0]
    decreases |s|
  {
    if s[..|p|] == p {
      assert s[0] == p[0];
    } else {
      ContainsFirstChar(s[1..], p);
      var i :| 0 <= i < |s| - 1 && s[1..][i] == p[0];
      assert s[i + 1] == p[0];
    }
  }
}
