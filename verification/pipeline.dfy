/** The per-line conversion loop that both revisions of `processFile` run:
    count the lines, emit the annotation before the third one, stop at a line
    that carries the "already adjusted" marker or whose position cannot be
    transformed, rewrite matching lines and copy the others. */
module Pipeline {
  import opened Wrappers
  import opened Text
  import opened Pattern

  datatype Point = Point(x: real, y: real)

  /** A configured quadrupole model: the magnitude and angle it reports, and
      its inverse transform, `applyOne([x, y], doInverse=True)`, applied to the
      two number texts captured from a line.  `None` stands for the transform
      raising, as it may for texts such as "1.2.3" that the pattern admits. */
  datatype QuadrupoleModel = QuadrupoleModel(mag: real, angle: real, inverse: (string, string) -> Option<Point>)

  /** Float-to-text conversion: `fixed(n, v)` is `"%0.*f" % (n, v)` and
      `show(v)` is `"%s" % v`. */
  datatype Formatter = Formatter(fixed: (nat, real) -> string, show: real -> string)

  /** `__version__` of the current revision, recorded in its annotation. */
  const Version := "1.2.2"

  /** Digits after the decimal point in a rewritten position. */
  function Digits(d: Dialect): nat {
    match d
    case Current => 5
    case Legacy => 4
  }

  /** The comment line recording the correction that was applied. */
  function Annotation(d: Dialect, m: QuadrupoleModel, f: Formatter): string {
    match d
    case Current =>
      "(Adjusted qpMag=" + f.show(m.mag) + " qpAngle=" + f.show(m.angle) + " version=" + Version + ")\n"
    case Legacy =>
      "(Adjusted qpMag=" + f.show(m.mag) + " qpAngle=" + f.show(m.angle) + ")\n"
  }

  /** The "already adjusted" test: the lower-cased line starts with
      "(adjusted"; the current revision strips leading whitespace first. */
  predicate MarksAdjusted(d: Dialect, line: string) {
    StartsWith(Lower(if d == Current then LStrip(line) else line), "(adjusted")
  }

  /** A line that starts with "(Adjusted" carries the marker in either
      revision. */
  lemma MarkerLine(d: Dialect, rest: string)
    ensures MarksAdjusted(d, "(Adjusted" + rest)
  {
    var line := "(Adjusted" + rest;
    assert !IsWhitespace(line[0]);
    assert LStrip(line) == line;
    assert line[..9] == "(Adjusted";
    LowerSlice(line, 0, 9);
    assert Lower("(Adjusted") == "(adjusted";
  }

  /** The replacement text for a matched line: the prefix, the lead, both
      numbers at the dialect's precision separated by one blank, the postfix
      and a newline. */
  function Rewrite(d: Dialect, f: Formatter, p: Parts, pt: Point): string {
    p.prefix + Lead(d) + f.fixed(Digits(d), pt.x) + " Y" + f.fixed(Digits(d), pt.y) + p.tail.postfix + "\n"
  }

  lemma RewriteKeepsEnds(d: Dialect, f: Formatter, p: Parts, pt: Point)
    ensures StartsWith(Rewrite(d, f, p, pt), p.prefix + Lead(d))
    ensures EndsWith(Rewrite(d, f, p, pt), p.tail.postfix + "\n")
  {
    var a := p.prefix + Lead(d);
    var b := f.fixed(Digits(d), pt.x) + " Y" + f.fixed(Digits(d), pt.y);
    var z := p.tail.postfix + "\n";
    var r := Rewrite(d, f, p, pt);
    assert r == a + b + z;
    assert r[..|a|] == a;
    assert r[|r| - |z|..] == z;
  }

  /** The decomposition of a rewritten line: the numbers are the formatted
      ones, the gap is one blank and the line ends in a newline. */
  function Normalised(d: Dialect, f: Formatter, p: Parts, pt: Point): Parts {
    Parts(p.prefix, Tail(f.fixed(Digits(d), pt.x), 1, f.fixed(Digits(d), pt.y), p.tail.postfix, "\n"))
  }

  /** Past its first character, the text a rewrite puts between the prefix
      and the postfix never holds the first character of the lead. */
  lemma MiddleNoLead(d: Dialect, fx: string, fy: string)
    requires IsNumRun(fx) && IsNumRun(fy)
    ensures var t := Lead(d) + fx + " Y" + fy;
      forall i :: 0 < i < |t| ==> t[i] != Lead(d)[0]
  {
    var t := Lead(d) + fx + " Y" + fy;
    var n0 := |Lead(d)|;
    var n1 := n0 + |fx|;
    forall i | 0 < i < |t|
      ensures t[i] != Lead(d)[0]
    {
      if i < n0 {
        assert t[i] == Lead(d)[i];
      } else if i < n1 {
        assert t[i] == fx[i - n0];
      } else if i < n1 + 2 {
        assert t[i] == " Y"[i - n1];
      } else {
        assert t[i] == fy[i - n1 - 2];
      }
    }
  }

  /** Inside the text a rewrite puts between prefix and postfix, no blank
      is followed by the first character of the lead, so a position where
      that happens lies past it. */
  lemma NoLeadInMiddle(d: Dialect, pre: string, fx: string, fy: string, rest: string, j: nat)
    requires IsNumRun(fx) && IsNumRun(fy)
    requires var w := pre + (Lead(d) + fx + " Y" + fy) + rest;
      |pre| < j < |w| && w[j - 1] == ' ' && w[j] == Lead(d)[0]
    ensures j > |pre| + |Lead(d) + fx + " Y" + fy|
  {
    var mid := Lead(d) + fx + " Y" + fy;
    var w := pre + mid + rest;
    MiddleNoLead(d, fx, fy);
  }

  /** Where a decomposition's prefix ends, a blank is followed by the
      lead. */
  lemma PrefixEnd(d: Dialect, q: Parts, w: string)
    requires WellFormed(d, q) && Render(d, q) == w && |q.prefix| > 0
    ensures var j := |q.prefix|;
      j < |w| && w[j - 1] == ' ' && w[j] == Lead(d)[0] && w[j..] == RenderTail(d, q.tail)
  {
    var rt := RenderTail(d, q.tail);
    assert w == q.prefix + rt;
    assert q.prefix[|q.prefix| - 1] == ' ';
  }

  /** The text from position `m` of the postfix of a rewritten line. */
  lemma PostfixSlice(mid: string, pre: string, post: string, m: nat)
    requires 0 < m <= |post|
    ensures var w := pre + mid + (post + "\n");
      w[|pre| + |mid| + m - 1] == post[m - 1] && w[|pre| + |mid| + m..] == post[m..] + "\n"
  {
    var w := pre + mid + (post + "\n");
    assert w[|pre| + |mid|..] == post + "\n";
    assert w[|pre| + |mid| + m..] == w[|pre| + |mid|..][m..];
  }

  /** A tail that renders as the rest of the postfix from just after a
      blank, plus a newline, gives the original line a decomposition whose
      prefix ends inside the postfix.  `b` is where the postfix starts. */
  lemma PostfixCandidate(d: Dialect, line: string, t: Tail, b: nat, post: string, eol: string, m: nat) returns (q2: Parts)
    requires TailOk(t) && EolOk(eol) && 0 < m <= |post| && post[m - 1] == ' '
    requires b <= |line| && line[b..] == post + eol && NoNewline(line[..|line| - |eol|])
    requires RenderTail(d, t) == post[m..] + "\n"
    ensures WellFormed(d, q2) && Render(d, q2) == line && |q2.prefix| == b + m
  {
    q2 := Parts(line[..b + m], t.(eol := eol));
    SwapEol(d, t, post[m..], eol);
    PostfixCut(d, line, b, post, eol, m);
    SplitParts(d, line, b + m, t.(eol := eol));
  }

  /** Cutting the line just after a blank of its postfix leaves a valid
      prefix group before the cut and the rest of the postfix after it. */
  lemma PostfixCut(d: Dialect, line: string, b: nat, post: string, eol: string, m: nat)
    requires 0 < m <= |post| && post[m - 1] == ' '
    requires b <= |line| && line[b..] == post + eol && NoNewline(line[..|line| - |eol|])
    ensures b + m <= |line| && line[b + m..] == post[m..] + eol && PrefixOk(d, line[..b + m])
  {
    var k := b + m;
    assert line[k..] == line[b..][m..];
    assert line[..k] == line[..|line| - |eol|][..k];
    assert line[..k][k - 1] == line[b..][m - 1];
  }

  /** A decomposition of a rewritten line whose prefix is longer than the
      original prefix has its tail inside the postfix, right after a blank:
      the tail renders as the rest of the postfix from some position `m` on,
      followed by the newline. */
  lemma TailInPostfix(d: Dialect, p: Parts, fx: string, fy: string, q: Parts) returns (m: nat)
    requires IsNumRun(fx) && IsNumRun(fy)
    requires WellFormed(d, q) && Render(d, q) == p.prefix + (Lead(d) + fx + " Y" + fy) + (p.tail.postfix + "\n")
    requires |q.prefix| > |p.prefix|
    ensures 0 < m <= |p.tail.postfix| && p.tail.postfix[m - 1] == ' '
    ensures RenderTail(d, q.tail) == p.tail.postfix[m..] + "\n"
  {
    var mid := Lead(d) + fx + " Y" + fy;
    PrefixEnd(d, q, Render(d, q));
    NoLeadInMiddle(d, p.prefix, fx, fy, p.tail.postfix + "\n", |q.prefix|);
    m := |q.prefix| - |p.prefix| - |mid|;
    PostfixSlice(mid, p.prefix, p.tail.postfix, m);
  }

  /** A decomposition of the rewritten line with a longer prefix than the
      original one would give the original line one too. */
  lemma LongerPrefix(d: Dialect, line: string, p: Parts, fx: string, fy: string, q: Parts) returns (q2: Parts)
    requires WellFormed(d, p) && Render(d, p) == line
    requires IsNumRun(fx) && IsNumRun(fy)
    requires WellFormed(d, q) && Render(d, q) == p.prefix + (Lead(d) + fx + " Y" + fy) + (p.tail.postfix + "\n")
    requires |q.prefix| > |p.prefix|
    ensures WellFormed(d, q2) && Render(d, q2) == line && |q2.prefix| > |p.prefix|
  {
    var m := TailInPostfix(d, p, fx, fy, q);
    var b := PostfixStart(d, p, line);
    q2 := PostfixCandidate(d, line, q.tail, b, p.tail.postfix, p.tail.eol, m);
  }

  /** No decomposition of a rewritten line has a longer prefix than the
      match of the line it came from. */
  lemma RewriteMaximal(d: Dialect, line: string, p: Parts, fx: string, fy: string)
    requires Match(d, line) == Some(p)
    requires IsNumRun(fx) && IsNumRun(fy)
    ensures forall q :: WellFormed(d, q) && Render(d, q) == p.prefix + (Lead(d) + fx + " Y" + fy) + (p.tail.postfix + "\n") ==>
      |q.prefix| <= |p.prefix|
  {
    MatchSound(d, line);
    forall q | WellFormed(d, q) && Render(d, q) == p.prefix + (Lead(d) + fx + " Y" + fy) + (p.tail.postfix + "\n")
      ensures |q.prefix| <= |p.prefix|
    {
      if |q.prefix| > |p.prefix| {
        var q2 := LongerPrefix(d, line, p, fx, fy, q);
        MatchGreedy(d, line, q2);
      }
    }
  }

  /** A rewritten line matches again: its prefix and postfix are the
      original ones, the numbers are the formatted ones, the gap is one
      blank and the line ends in a newline.  This needs the formatted
      numbers to consist of the characters of `[-0-9.]`, as `%0.*f` of a
      finite value does. */
  lemma RewriteRematches(d: Dialect, f: Formatter, line: string, pt: Point)
    requires Match(d, line).Some?
    requires IsNumRun(f.fixed(Digits(d), pt.x)) && IsNumRun(f.fixed(Digits(d), pt.y))
    ensures var p := Match(d, line).value;
      Match(d, Rewrite(d, f, p, pt)) == Some(Normalised(d, f, p, pt))
  {
    var p := Match(d, line).value;
    var fx, fy := f.fixed(Digits(d), pt.x), f.fixed(Digits(d), pt.y);
    var n := Normalised(d, f, p, pt);
    var w := Rewrite(d, f, p, pt);
    MatchSound(d, line);
    NormalisedRenders(d, f, p, pt);
    RewriteMaximal(d, line, p, fx, fy);
    MatchOfMaximal(d, w, n);
  }

  /** The normalised decomposition spells out the rewritten line. */
  lemma NormalisedRenders(d: Dialect, f: Formatter, p: Parts, pt: Point)
    ensures Render(d, Normalised(d, f, p, pt)) == Rewrite(d, f, p, pt)
    ensures Rewrite(d, f, p, pt) ==
      p.prefix + (Lead(d) + f.fixed(Digits(d), pt.x) + " Y" + f.fixed(Digits(d), pt.y)) + (p.tail.postfix + "\n")
  {
    OneBlankTail(d, Normalised(d, f, p, pt).tail);
  }

  /** A tail with a one-blank gap renders as the lead, the numbers around
      " Y", the postfix and the line end. */
  lemma OneBlankTail(d: Dialect, t: Tail)
    requires t.gap == 1
    ensures RenderTail(d, t) == (Lead(d) + t.x + " Y" + t.y) + (t.postfix + t.eol)
  {
    assert Spaces(1) == " ";
  }

  /** What one input line contributes: a stop, or a text for the output. */
  datatype Step = Marked | Unconvertible | Emit(text: string, adjusted: bool)

  function StepOf(d: Dialect, m: QuadrupoleModel, f: Formatter, line: string): (s: Step)
    ensures s.Marked? <==> MarksAdjusted(d, line)
    ensures s.Unconvertible? <==>
      !MarksAdjusted(d, line) && Match(d, line).Some?
      && m.inverse(Match(d, line).value.tail.x, Match(d, line).value.tail.y).None?
    ensures s.Emit? ==> (s.adjusted <==> Match(d, line).Some?)
    ensures s.Emit? && !s.adjusted ==> s.text == line
    ensures s.Emit? && s.adjusted ==>
      var p := Match(d, line).value;
      StartsWith(s.text, p.prefix + Lead(d)) && EndsWith(s.text, p.tail.postfix + "\n")
  {
    if MarksAdjusted(d, line) then Marked
    else
      match Match(d, line)
      case None => Emit(line, false)
      case Some(p) =>
        match m.inverse(p.tail.x, p.tail.y)
        case None => Unconvertible
        case Some(pt) =>
          RewriteKeepsEnds(d, f, p, pt);
          Emit(Rewrite(d, f, p, pt), true)
  }

  /** The text a matched line turns into matches again, with the original
      prefix and postfix, the transformed numbers as formatted, a one-blank
      gap and a final newline. */
  lemma StepRematches(d: Dialect, m: QuadrupoleModel, f: Formatter, line: string)
    requires StepOf(d, m, f, line).Emit? && StepOf(d, m, f, line).adjusted
    requires var p := Match(d, line).value;
      var pt := m.inverse(p.tail.x, p.tail.y).value;
      IsNumRun(f.fixed(Digits(d), pt.x)) && IsNumRun(f.fixed(Digits(d), pt.y))
    ensures var p := Match(d, line).value;
      var pt := m.inverse(p.tail.x, p.tail.y).value;
      Match(d, StepOf(d, m, f, line).text) ==
        Some(Parts(p.prefix, Tail(f.fixed(Digits(d), pt.x), 1, f.fixed(Digits(d), pt.y), p.tail.postfix, "\n")))
  {
    RewriteRematches(d, f, line, m.inverse(Match(d, line).value.tail.x, Match(d, line).value.tail.y).value);
  }

  predicate Emits(d: Dialect, m: QuadrupoleModel, f: Formatter, line: string) {
    StepOf(d, m, f, line).Emit?
  }

  /** The step of every line, in order. */
  function StepsOf(d: Dialect, m: QuadrupoleModel, f: Formatter, lines: seq<string>): (r: seq<Step>)
    ensures |r| == |lines|
    ensures forall i :: 0 <= i < |lines| ==> r[i] == StepOf(d, m, f, lines[i])
  {
    seq(|lines|, i requires 0 <= i < |lines| => StepOf(d, m, f, lines[i]))
  }

  /** Step `i` is where the loop stops: it emits nothing, every earlier one
      does. */
  ghost predicate FirstStop(steps: seq<Step>, i: nat) {
    && i < |steps|
    && !steps[i].Emit?
    && forall j :: 0 <= j < i ==> steps[j].Emit?
  }

  /** Output position of input line `i`: the annotation takes position 2. */
  function Slot(i: nat): nat {
    if i < 2 then i else i + 1
  }

  /** `out` holds, in order, the texts of the first `n` steps, all of which
      emit, with `note` inserted before the third when `annotated`. */
  ghost predicate Laid(steps: seq<Step>, note: string, n: nat, annotated: bool, out: seq<string>)
    requires n <= |steps|
  {
    && |out| == n + (if annotated then 1 else 0)
    && (annotated ==> n >= 2 && out[2] == note)
    && forall i :: 0 <= i < n ==> steps[i].Emit? && Slot(i) < |out| && out[Slot(i)] == steps[i].text
  }

  /** Indices of the first `n` steps that rewrote their line. */
  ghost function Rewritten(steps: seq<Step>, n: nat): set<int>
    requires n <= |steps|
  {
    set i | 0 <= i < n && steps[i].Emit? && steps[i].adjusted
  }

  datatype StopReason = AlreadyAdjusted | ConversionError

  datatype Conversion =
    | Finished(out: seq<string>, count: nat)
    | Stopped(reason: StopReason, at: nat, emitted: seq<string>)

  lemma LaidExtend(steps: seq<Step>, note: string, n: nat, buf: seq<string>)
    requires n < |steps| && Laid(steps, note, n, n >= 3, buf) && steps[n].Emit?
    ensures var buf1 := if n == 2 then buf + [note] else buf;
      Laid(steps, note, n + 1, n + 1 >= 3, buf1 + [steps[n].text])
  {
    var buf1 := if n == 2 then buf + [note] else buf;
    var out := buf1 + [steps[n].text];
    assert |buf1| == Slot(n);
    forall i | 0 <= i < n + 1
      ensures steps[i].Emit? && Slot(i) < |out| && out[Slot(i)] == steps[i].text
    {
      if i < n {
        assert out[Slot(i)] == buf[Slot(i)];
      }
    }
  }

  lemma RewrittenExtend(steps: seq<Step>, n: nat)
    requires n < |steps|
    ensures |Rewritten(steps, n + 1)| ==
      |Rewritten(steps, n)| + (if steps[n].Emit? && steps[n].adjusted then 1 else 0)
  {
    if steps[n].Emit? && steps[n].adjusted {
      assert Rewritten(steps, n + 1) == Rewritten(steps, n) + {n};
    } else {
      assert Rewritten(steps, n + 1) == Rewritten(steps, n);
    }
  }

  /** The loop body from step `n` on, with `buf` the output so far and
      `count` the number of rewritten lines. */
  function Run(steps: seq<Step>, note: string, n: nat, buf: seq<string>, count: nat): (c: Conversion)
    requires n <= |steps|
    requires Laid(steps, note, n, n >= 3, buf)
    requires count == |Rewritten(steps, n)|
    ensures c.Finished? ==>
      && (forall i :: n <= i < |steps| ==> steps[i].Emit?)
      && Laid(steps, note, |steps|, |steps| >= 3, c.out)
      && c.count == |Rewritten(steps, |steps|)|
    ensures c.Stopped? ==>
      && n <= c.at < |steps|
      && (forall i :: n <= i < c.at ==> steps[i].Emit?)
      && !steps[c.at].Emit?
      && (c.reason == AlreadyAdjusted <==> steps[c.at].Marked?)
      && Laid(steps, note, c.at, c.at >= 2, c.emitted)
    decreases |steps| - n
  {
    if n == |steps| then Finished(buf, count)
    else
      var buf1 := if n == 2 then buf + [note] else buf;
      var s := steps[n];
      if s.Marked? then Stopped(AlreadyAdjusted, n, buf1)
      else if s.Unconvertible? then Stopped(ConversionError, n, buf1)
      else
        LaidExtend(steps, note, n, buf);
        RewrittenExtend(steps, n);
        Run(steps, note, n + 1, buf1 + [s.text], if s.adjusted then count + 1 else count)
  }

  /** Indices of the first `n` lines that match the pattern. */
  ghost function Matched(d: Dialect, lines: seq<string>, n: nat): set<int>
    requires n <= |lines|
  {
    set i | 0 <= i < n && Match(d, lines[i]).Some?
  }

  /** When every line emits, the rewritten lines are the matching ones. */
  lemma RewrittenAreMatched(d: Dialect, m: QuadrupoleModel, f: Formatter, lines: seq<string>)
    requires forall i :: 0 <= i < |lines| ==> Emits(d, m, f, lines[i])
    ensures Rewritten(StepsOf(d, m, f, lines), |lines|) == Matched(d, lines, |lines|)
  {
  }

  /** The whole loop.  It finishes exactly when every line emits, with every
      line's text in order, the annotation before the third line when there
      is one, and a count equal to the number of matching lines.  Otherwise
      it stops at the first line that emits nothing, holding what it had
      emitted before that line, annotation included once the third line was
      reached. */
  function Convert(d: Dialect, m: QuadrupoleModel, f: Formatter, lines: seq<string>): (c: Conversion)
    ensures c.Finished? <==> forall i :: 0 <= i < |lines| ==> Emits(d, m, f, lines[i])
    ensures c.Finished? ==>
      && Laid(StepsOf(d, m, f, lines), Annotation(d, m, f), |lines|, |lines| >= 3, c.out)
      && c.count == |Matched(d, lines, |lines|)|
    ensures c.Stopped? ==>
      && FirstStop(StepsOf(d, m, f, lines), c.at)
      && (c.reason == AlreadyAdjusted <==> MarksAdjusted(d, lines[c.at]))
      && Laid(StepsOf(d, m, f, lines), Annotation(d, m, f), c.at, c.at >= 2, c.emitted)
  {
    var steps := StepsOf(d, m, f, lines);
    assert Rewritten(steps, 0) == {};
    var c := Run(steps, Annotation(d, m, f), 0, [], 0);
    if c.Finished? then RewrittenAreMatched(d, m, f, lines); c else c
  }
}
