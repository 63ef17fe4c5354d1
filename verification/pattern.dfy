/** The line patterns that recognise an X/Y position.

    The current revision uses `^(.* )X([-0-9.]+) +Y([-0-9.]+)( .*)?$`, the
    legacy one `^(.* )?G60 X([-0-9.]+) +Y([-0-9.]+)( .*)?$`.  Both are modelled
    as one decomposition of a line into a prefix and a tail, parameterised by
    the dialect.  `.` never matches a newline and `$` matches at the end of the
    line or just before a final newline, as in Python's `re` without flags.
    The leading `.*` is greedy, so of all decompositions the one with the
    longest prefix is the match. */
module Pattern {
  import opened Wrappers
  import opened Text

  datatype Dialect = Current | Legacy

  /** The literal text between the prefix group and the X number. */
  function Lead(d: Dialect): string {
    match d
    case Current => "X"
    case Legacy => "G60 X"
  }

  /** The character class `[-0-9.]`. */
  predicate IsNumChar(c: char) {
    c == '-' || c == '.' || '0' <= c <= '9'
  }

  /** `[-0-9.]+` */
  predicate IsNumRun(s: string) {
    |s| > 0 && forall i :: 0 <= i < |s| ==> IsNumChar(s[i])
  }

  predicate NoNewline(s: string) {
    forall i :: 0 <= i < |s| ==> s[i] != '\n'
  }

  /** The prefix group: `(.* )` in the current pattern; `(.* )?` in the
      legacy one, where an absent group reads as the empty string. */
  predicate PrefixOk(d: Dialect, s: string) {
    NoNewline(s) && ((|s| > 0 && s[|s| - 1] == ' ') || (d == Legacy && s == ""))
  }

  /** The postfix group `( .*)?`; an absent group reads as the empty string. */
  predicate PostfixOk(s: string) {
    NoNewline(s) && (s == "" || s[0] == ' ')
  }

  /** What `$` lets stand after the last group. */
  predicate EolOk(e: string) {
    e == "" || e == "\n"
  }

  function Spaces(n: nat): (r: string)
    ensures |r| == n
    ensures forall i :: 0 <= i < n ==> r[i] == ' '
  {
    seq(n, _ => ' ')
  }

  /** Everything from the lead on: the X number, the width of the blank gap,
      the Y number, the postfix group and the line end that `$` skipped. */
  datatype Tail = Tail(x: string, gap: nat, y: string, postfix: string, eol: string)

  datatype Parts = Parts(prefix: string, tail: Tail)

  predicate TailOk(t: Tail) {
    IsNumRun(t.x) && t.gap >= 1 && IsNumRun(t.y) && PostfixOk(t.postfix) && EolOk(t.eol)
  }

  /** `p` is a way the pattern can match: every group meets its sub-pattern. */
  predicate WellFormed(d: Dialect, p: Parts) {
    PrefixOk(d, p.prefix) && TailOk(p.tail)
  }

  /** The Y number, the postfix group and the line end. */
  function YField(t: Tail): string {
    t.y + (t.postfix + t.eol)
  }

  /** The blank gap, the literal `Y` and what follows it. */
  function GapField(t: Tail): string {
    Spaces(t.gap) + ("Y" + YField(t))
  }

  /** The X number and what follows it. */
  function XField(t: Tail): string {
    t.x + GapField(t)
  }

  function RenderTail(d: Dialect, t: Tail): string {
    Lead(d) + XField(t)
  }

  /** The line a decomposition stands for. */
  function Render(d: Dialect, p: Parts): string {
    p.prefix + RenderTail(d, p.tail)
  }

  predicate AllNum(s: string) {
    forall i :: 0 <= i < |s| ==> IsNumChar(s[i])
  }

  /** Splits off the final newline that `$` is allowed to skip. */
  function SplitEol(r: string): (string, string) {
    if |r| > 0 && r[|r| - 1] == '\n' then (r[..|r| - 1], "\n") else (r, "")
  }

  /** Matches `([-0-9.]+)( .*)?$` once the X number and the gap are
      known; `y` holds the characters of the Y number consumed so far. */
  function ScanY(x: string, gap: nat, y: string, r: string): Option<Tail>
    decreases |r|
  {
    if |r| > 0 && IsNumChar(r[0]) then ScanY(x, gap, y + [r[0]], r[1..])
    else if y == [] then None
    else
      var (post, eol) := SplitEol(r);
      if PostfixOk(post) then Some(Tail(x, gap, y, post, eol)) else None
  }

  /** Matches ` +Y` and what follows once the X number is known; `gap`
      counts the blanks consumed so far. */
  function ScanGap(x: string, gap: nat, r: string): Option<Tail>
    decreases |r|
  {
    if |r| > 0 && r[0] == ' ' then ScanGap(x, gap + 1, r[1..])
    else if gap > 0 && |r| > 0 && r[0] == 'Y' then ScanY(x, gap, "", r[1..])
    else None
  }

  /** Matches `([-0-9.]+)` and what follows it; `x` holds the characters of
      the X number consumed so far. */
  function ScanX(x: string, r: string): Option<Tail>
    decreases |r|
  {
    if |r| > 0 && IsNumChar(r[0]) then ScanX(x + [r[0]], r[1..])
    else if x == [] then None
    else ScanGap(x, 0, r)
  }

  /** Matches the part of the pattern after the prefix group, anchored at
      both ends.  Each quantifier in it can stop at one place only, so the
      greedy reading is the only reading. */
  function ParseTail(d: Dialect, s: string): Option<Tail> {
    if StartsWith(s, Lead(d)) then ScanX("", s[|Lead(d)|..]) else None
  }

  lemma {:induction false} ScanYSound(x: string, gap: nat, y: string, r: string)
    requires IsNumRun(x) && gap >= 1 && AllNum(y)
    ensures var t := ScanY(x, gap, y, r);
      t.Some? ==> TailOk(t.value) && t.value.x == x && t.value.gap == gap && YField(t.value) == y + r
    decreases |r|
  {
    if |r| > 0 && IsNumChar(r[0]) {
      assert y + r == (y + [r[0]]) + r[1..];
      ScanYSound(x, gap, y + [r[0]], r[1..]);
    } else if y != [] {
      var (post, eol) := SplitEol(r);
      assert r == post + eol;
    }
  }

  lemma {:induction false} ScanGapSound(x: string, gap: nat, r: string)
    requires IsNumRun(x)
    ensures var t := ScanGap(x, gap, r);
      t.Some? ==> TailOk(t.value) && t.value.x == x && GapField(t.value) == Spaces(gap) + r
    decreases |r|
  {
    if |r| > 0 && r[0] == ' ' {
      assert Spaces(gap) + r == Spaces(gap + 1) + r[1..];
      ScanGapSound(x, gap + 1, r[1..]);
    } else if gap > 0 && |r| > 0 && r[0] == 'Y' {
      ScanYSound(x, gap, "", r[1..]);
      assert r == "Y" + ([] + r[1..]);
    }
  }

  lemma {:induction false} ScanXSound(x: string, r: string)
    requires AllNum(x)
    ensures var t := ScanX(x, r);
      t.Some? ==> TailOk(t.value) && XField(t.value) == x + r
    decreases |r|
  {
    if |r| > 0 && IsNumChar(r[0]) {
      assert x + r == (x + [r[0]]) + r[1..];
      ScanXSound(x + [r[0]], r[1..]);
    } else if x != [] {
      ScanGapSound(x, 0, r);
      assert Spaces(0) + r == r;
    }
  }

  /** What `ParseTail` finds is a well-formed tail spelling out the text. */
  lemma ParseTailSound(d: Dialect, s: string)
    ensures var t := ParseTail(d, s);
      t.Some? ==> TailOk(t.value) && RenderTail(d, t.value) == s
  {
    if StartsWith(s, Lead(d)) {
      ScanXSound("", s[|Lead(d)|..]);
      assert s == Lead(d) + ([] + s[|Lead(d)|..]);
    }
  }

  /** Once the Y number is consumed, the rest is the postfix and the line
      end. */
  lemma ScanYEnd(t: Tail)
    requires TailOk(t)
    ensures ScanY(t.x, t.gap, t.y, t.postfix + t.eol) == Some(t)
  {
    var rest := t.postfix + t.eol;
    assert SplitEol(rest) == (t.postfix, t.eol) by {
      if t.eol == "\n" {
        assert rest[..|rest| - 1] == t.postfix;
      } else {
        assert rest == t.postfix;
        assert rest == [] || rest[|rest| - 1] != '\n';
      }
    }
    assert rest == [] || !IsNumChar(rest[0]) by {
      if rest != [] {
        assert rest[0] == (if t.postfix != [] then t.postfix[0] else t.eol[0]);
      }
    }
  }

  lemma {:induction false} ScanYComplete(t: Tail, y0: string, y1: string)
    requires TailOk(t) && y0 + y1 == t.y && AllNum(y0)
    ensures ScanY(t.x, t.gap, y0, y1 + (t.postfix + t.eol)) == Some(t)
    decreases |y1|
  {
    var rest := t.postfix + t.eol;
    if |y1| > 0 {
      assert (y1 + rest)[0] == t.y[|y0|];
      assert (y1 + rest)[1..] == y1[1..] + rest;
      assert (y0 + [y1[0]]) + y1[1..] == t.y;
      ScanYComplete(t, y0 + [y1[0]], y1[1..]);
    } else {
      assert y0 == t.y && y1 + rest == rest;
      ScanYEnd(t);
    }
  }

  lemma {:induction false} ScanGapComplete(t: Tail, g0: nat)
    requires TailOk(t) && g0 <= t.gap
    ensures ScanGap(t.x, g0, Spaces(t.gap - g0) + ("Y" + YField(t))) == Some(t)
    decreases t.gap - g0
  {
    var r := Spaces(t.gap - g0) + ("Y" + YField(t));
    if g0 < t.gap {
      assert r[0] == ' ';
      assert r[1..] == Spaces(t.gap - (g0 + 1)) + ("Y" + YField(t));
      ScanGapComplete(t, g0 + 1);
    } else {
      assert r == "Y" + YField(t);
      assert r[1..] == [] + YField(t);
      ScanYComplete(t, [], t.y);
    }
  }

  lemma {:induction false} ScanXComplete(t: Tail, x0: string, x1: string)
    requires TailOk(t) && x0 + x1 == t.x && AllNum(x0)
    ensures ScanX(x0, x1 + GapField(t)) == Some(t)
    decreases |x1|
  {
    if |x1| > 0 {
      assert (x1 + GapField(t))[0] == t.x[|x0|];
      assert (x1 + GapField(t))[1..] == x1[1..] + GapField(t);
      assert (x0 + [x1[0]]) + x1[1..] == t.x;
      ScanXComplete(t, x0 + [x1[0]], x1[1..]);
    } else {
      assert x0 == t.x;
      assert x1 + GapField(t) == Spaces(t.gap - 0) + ("Y" + YField(t));
      assert GapField(t)[0] == ' ';
      ScanGapComplete(t, 0);
    }
  }

  /** Every well-formed tail is found again by `ParseTail`. */
  lemma ParseTailComplete(d: Dialect, t: Tail)
    requires TailOk(t)
    ensures ParseTail(d, RenderTail(d, t)) == Some(t)
  {
    var s := RenderTail(d, t);
    assert s[..|Lead(d)|] == Lead(d);
    assert s[|Lead(d)|..] == XField(t);
    ScanXComplete(t, [], t.x);
  }

  /** The prefix group may end at position `k`. */
  predicate Candidate(d: Dialect, line: string, k: nat)
    requires k <= |line|
  {
    PrefixOk(d, line[..k]) && ParseTail(d, line[k..]).Some?
  }

  /** A decomposition of `line` makes its prefix length a candidate. */
  lemma CandidateOf(d: Dialect, line: string, q: Parts)
    requires WellFormed(d, q) && Render(d, q) == line
    ensures |q.prefix| <= |line| && Candidate(d, line, |q.prefix|)
  {
    var k := |q.prefix|;
    assert line[..k] == q.prefix;
    assert line[k..] == RenderTail(d, q.tail);
    ParseTailComplete(d, q.tail);
  }

  /** No prefix length `j` with `lo < j <= hi` is a candidate. */
  predicate NoCandidateIn(d: Dialect, line: string, lo: int, hi: nat)
    requires hi <= |line|
    decreases hi
  {
    hi <= lo || (!Candidate(d, line, hi) && (hi == 0 || NoCandidateIn(d, line, lo, hi - 1)))
  }

  lemma {:induction false} NoCandidateAt(d: Dialect, line: string, lo: int, hi: nat, j: nat)
    requires hi <= |line| && NoCandidateIn(d, line, lo, hi)
    requires lo < j <= hi
    ensures !Candidate(d, line, j)
    decreases hi
  {
    if j < hi {
      NoCandidateAt(d, line, lo, hi - 1, j);
    }
  }

  /** A prefix and a tail spelling out the rest of the line decompose it. */
  lemma SplitParts(d: Dialect, line: string, k: nat, t: Tail)
    requires k <= |line| && PrefixOk(d, line[..k])
    requires TailOk(t) && RenderTail(d, t) == line[k..]
    ensures WellFormed(d, Parts(line[..k], t)) && Render(d, Parts(line[..k], t)) == line
  {
    assert line == line[..k] + line[k..];
  }

  /** A candidate prefix length splits the line into a decomposition. */
  lemma CandidateParts(d: Dialect, line: string, k: nat)
    requires k <= |line| && Candidate(d, line, k)
    ensures var q := Parts(line[..k], ParseTail(d, line[k..]).value);
      WellFormed(d, q) && Render(d, q) == line
  {
    ParseTailSound(d, line[k..]);
    SplitParts(d, line, k, ParseTail(d, line[k..]).value);
  }

  /** Tries prefix lengths from `k` down to 0, as the backtracking matcher
      tries ever shorter prefixes. */
  function Scan(d: Dialect, line: string, k: nat): Option<Parts>
    requires k <= |line|
    decreases k
  {
    if Candidate(d, line, k) then Some(Parts(line[..k], ParseTail(d, line[k..]).value))
    else if k == 0 then None
    else Scan(d, line, k - 1)
  }

  /** `Scan` returns a decomposition at the first candidate it meets. */
  lemma {:induction false} ScanSound(d: Dialect, line: string, k: nat)
    requires k <= |line|
    ensures var r := Scan(d, line, k);
      && (r.Some? ==> WellFormed(d, r.value) && Render(d, r.value) == line)
      && (r.Some? ==> |r.value.prefix| <= k && NoCandidateIn(d, line, |r.value.prefix|, k))
      && (r.None? ==> NoCandidateIn(d, line, -1, k))
    decreases k
  {
    if Candidate(d, line, k) {
      CandidateParts(d, line, k);
      assert Scan(d, line, k) == Some(Parts(line[..k], ParseTail(d, line[k..]).value));
    } else if k > 0 {
      ScanSound(d, line, k - 1);
      assert Scan(d, line, k) == Scan(d, line, k - 1);
    }
  }

  /** `pattern.match(line)`: the decomposition with the longest prefix, or
      `None` when the line has no decomposition at all. */
  function Match(d: Dialect, line: string): Option<Parts> {
    Scan(d, line, |line|)
  }

  /** A match is a decomposition of the line. */
  lemma MatchSound(d: Dialect, line: string)
    ensures Match(d, line).Some? ==>
      WellFormed(d, Match(d, line).value) && Render(d, Match(d, line).value) == line
  {
    ScanSound(d, line, |line|);
  }

  /** No decomposition of a line has a longer prefix than the match, and a
      line with any decomposition at all has a match. */
  lemma MatchGreedy(d: Dialect, line: string, q: Parts)
    requires WellFormed(d, q) && Render(d, q) == line
    ensures Match(d, line).Some? && |q.prefix| <= |Match(d, line).value.prefix|
  {
    ScanSound(d, line, |line|);
    var r := Scan(d, line, |line|);
    CandidateOf(d, line, q);
    if r.None? {
      NoCandidateAt(d, line, -1, |line|, |q.prefix|);
    } else if |q.prefix| > |r.value.prefix| {
      NoCandidateAt(d, line, |r.value.prefix|, |line|, |q.prefix|);
    }
  }

  /** A decomposition no other decomposition beats is the match. */
  lemma MatchOfMaximal(d: Dialect, line: string, p: Parts)
    requires WellFormed(d, p) && Render(d, p) == line
    requires forall q :: WellFormed(d, q) && Render(d, q) == line ==> |q.prefix| <= |p.prefix|
    ensures Match(d, line) == Some(p)
  {
    MatchGreedy(d, line, p);
    MatchSound(d, line);
    var m := Match(d, line);
    var k := |p.prefix|;
    assert |m.value.prefix| == k;
    assert p.prefix == line[..k] == m.value.prefix;
    assert RenderTail(d, p.tail) == line[k..] == RenderTail(d, m.value.tail);
    ParseTailComplete(d, p.tail);
    ParseTailComplete(d, m.value.tail);
  }

  /** The match is characterised by the declarative reading alone: `p` is
      what `Match` returns exactly when it decomposes the line and no
      decomposition has a longer prefix. */
  lemma MatchIff(d: Dialect, line: string, p: Parts)
    ensures Match(d, line) == Some(p) <==>
      && WellFormed(d, p) && Render(d, p) == line
      && forall q :: WellFormed(d, q) && Render(d, q) == line ==> |q.prefix| <= |p.prefix|
  {
    MatchSound(d, line);
    if Match(d, line) == Some(p) {
      forall q | WellFormed(d, q) && Render(d, q) == line
        ensures |q.prefix| <= |p.prefix|
      {
        MatchGreedy(d, line, q);
      }
    }
    if WellFormed(d, p) && Render(d, p) == line
      && forall q :: WellFormed(d, q) && Render(d, q) == line ==> |q.prefix| <= |p.prefix|
    {
      MatchOfMaximal(d, line, p);
    }
  }

  /** The rendered tail without its line end. */
  function TailBody(d: Dialect, t: Tail): string {
    Lead(d) + t.x + Spaces(t.gap) + "Y" + t.y + t.postfix
  }

  lemma TailBodySplit(d: Dialect, t: Tail)
    ensures RenderTail(d, t) == TailBody(d, t) + t.eol
  {
  }

  /** Nothing before the line end of a decomposed line is a newline. */
  lemma BodyNoNewline(d: Dialect, p: Parts)
    requires WellFormed(d, p)
    ensures NoNewline(p.prefix + TailBody(d, p.tail))
  {
    var t := p.tail;
    var b := p.prefix + TailBody(d, t);
    var n0 := |p.prefix| + |Lead(d)|;
    var n1 := n0 + |t.x|;
    var n2 := n1 + t.gap + 1;
    var n3 := n2 + |t.y|;
    forall i | 0 <= i < |b|
      ensures b[i] != '\n'
    {
      if i < |p.prefix| {
        assert b[i] == p.prefix[i];
      } else if i < n0 {
        assert b[i] == Lead(d)[i - |p.prefix|];
      } else if i < n1 {
        assert b[i] == t.x[i - n0];
      } else if i < n2 - 1 {
        assert b[i] == Spaces(t.gap)[i - n1];
      } else if i < n2 {
        assert b[i] == 'Y';
      } else if i < n3 {
        assert b[i] == t.y[i - n2];
      } else {
        assert b[i] == t.postfix[i - n3];
      }
    }
  }

  /** A rendered tail ends in a newline exactly when its line end is one. */
  lemma TailEndsInNewline(d: Dialect, t: Tail)
    requires TailOk(t)
    ensures var s := RenderTail(d, t);
      |s| > 0 && (s[|s| - 1] == '\n' <==> t.eol == "\n")
  {
    TailBodySplit(d, t);
    var b := TailBody(d, t);
    if t.eol == "" {
      if t.postfix == "" {
        assert b[|b| - 1] == t.y[|t.y| - 1];
      } else {
        assert b[|b| - 1] == t.postfix[|t.postfix| - 1];
      }
    }
  }

  /** Changing the line end of a tail that ends in a newline changes only
      the last character of its rendering. */
  lemma SwapEol(d: Dialect, t: Tail, s: string, e: string)
    requires TailOk(t) && RenderTail(d, t) == s + "\n"
    ensures RenderTail(d, t.(eol := e)) == s + e
  {
    var rt := RenderTail(d, t);
    TailEndsInNewline(d, t);
    TailBodySplit(d, t);
    TailBodySplit(d, t.(eol := e));
    assert rt[|rt| - 1] == '\n';
    assert TailBody(d, t) == rt[..|rt| - 1] == s;
  }

  /** A decomposed line is its prefix, then the lead and both numbers, then
      the postfix, then the line end; nothing before the line end is a
      newline. */
  lemma PostfixStart(d: Dialect, p: Parts, line: string) returns (b: nat)
    requires WellFormed(d, p) && Render(d, p) == line
    ensures b == |line| - |p.tail.postfix| - |p.tail.eol|
    ensures |p.prefix| < b <= |line|
    ensures line[b..] == p.tail.postfix + p.tail.eol
    ensures NoNewline(line[..|line| - |p.tail.eol|])
    ensures EolOk(p.tail.eol)
  {
    b := |line| - |p.tail.postfix| - |p.tail.eol|;
    var body := p.prefix + TailBody(d, p.tail);
    TailBodySplit(d, p.tail);
    BodyNoNewline(d, p);
    assert line == body + p.tail.eol;
    assert line[..|body|] == body;
  }
}
