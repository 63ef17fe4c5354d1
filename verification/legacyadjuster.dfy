/** The legacy revision's `processFile`: it accepts only `.par` files, opens
    the output before reading the input and writes each line as it goes, so
    an error part-way leaves a partial output behind.  It neither checks the
    input's name nor whether the output already exists. */
module LegacyAdjuster {
  import opened Wrappers
  import opened Text
  import opened Pattern
  import opened Pipeline

  /** The extension test, `ext.lower() == ".par"`. */
  predicate IsParExt(ext: string) {
    Lower(ext) == ".par"
  }

  /** The output name inserts "Adjusted" between the base name and the
      extension. */
  function OutFileName(base: string, ext: string): (r: string)
    ensures StartsWith(r, base) && EndsWith(r, ext)
    ensures r != base + ext
  {
    base + "Adjusted" + ext
  }

  datatype Outcome =
    | BadExtension
    | NoModel
    | Aborted(name: string, reason: StopReason, at: nat, contents: seq<string>)
    | Completed(name: string, contents: seq<string>, count: nat)

  /** One call of the legacy `processFile`.  `model` is `None` when reading
      the configuration failed, so that the widget never got a model and the
      first use of it raises.  `Aborted` carries what the output file holds
      when the error ends the call: every line emitted so far. */
  function ProcessFile(model: Option<QuadrupoleModel>, f: Formatter, base: string, ext: string, lines: seq<string>): (r: Outcome)
    ensures r.BadExtension? <==> !IsParExt(ext)
    ensures r.NoModel? <==> IsParExt(ext) && model.None?
    ensures r.Completed? <==>
      IsParExt(ext) && model.Some? && forall i :: 0 <= i < |lines| ==> Emits(Legacy, model.value, f, lines[i])
    ensures r.Completed? ==>
      && r.name == OutFileName(base, ext)
      && Laid(StepsOf(Legacy, model.value, f, lines), Annotation(Legacy, model.value, f), |lines|, |lines| >= 3, r.contents)
      && r.count == |Matched(Legacy, lines, |lines|)|
    ensures r.Aborted? ==>
      && IsParExt(ext) && model.Some?
      && r.name == OutFileName(base, ext)
      && FirstStop(StepsOf(Legacy, model.value, f, lines), r.at)
      && (r.reason == AlreadyAdjusted <==> MarksAdjusted(Legacy, lines[r.at]))
      && Laid(StepsOf(Legacy, model.value, f, lines), Annotation(Legacy, model.value, f), r.at, r.at >= 2, r.contents)
  {
    if !IsParExt(ext) then BadExtension
    else
      match model
      case None => NoModel
      case Some(m) =>
        match Convert(Legacy, m, f, lines)
        case Finished(out, count) => Completed(OutFileName(base, ext), out, count)
        case Stopped(reason, at, emitted) => Aborted(OutFileName(base, ext), reason, at, emitted)
  }

  /** The annotation carries the "already adjusted" marker. */
  lemma AnnotationMarked(m: QuadrupoleModel, f: Formatter)
    ensures MarksAdjusted(Legacy, Annotation(Legacy, m, f))
  {
    var a := Annotation(Legacy, m, f);
    assert a == "(Adjusted" + a[9..];
    MarkerLine(Legacy, a[9..]);
  }

  /** Running the legacy adjuster over its own output of three or more lines
      fails by the third line at the latest, leaving a partial file. */
  lemma RerunAborts(m: QuadrupoleModel, f: Formatter, base: string, ext: string, lines: seq<string>, base2: string)
    requires |lines| >= 3
    requires ProcessFile(Some(m), f, base, ext, lines).Completed?
    ensures var again := ProcessFile(Some(m), f, base2, ext, ProcessFile(Some(m), f, base, ext, lines).contents);
      again.Aborted? && again.at <= 2
  {
    var out := ProcessFile(Some(m), f, base, ext, lines).contents;
    AnnotationMarked(m, f);
    assert !Emits(Legacy, m, f, out[2]);
  }

  /** A marker on the third line stops the legacy adjuster after it has
      already written the first two lines and the annotation. */
  lemma PartialOutput(m: QuadrupoleModel, f: Formatter, base: string, ext: string, lines: seq<string>)
    requires IsParExt(ext) && |lines| >= 3
    requires Emits(Legacy, m, f, lines[0]) && Emits(Legacy, m, f, lines[1])
    requires MarksAdjusted(Legacy, lines[2])
    ensures ProcessFile(Some(m), f, base, ext, lines) ==
      Aborted(OutFileName(base, ext), AlreadyAdjusted, 2,
              [StepOf(Legacy, m, f, lines[0]).text, StepOf(Legacy, m, f, lines[1]).text, Annotation(Legacy, m, f)])
  {
    var r := ProcessFile(Some(m), f, base, ext, lines);
    assert r.Aborted? && r.at == 2;
  }

  /** The legacy test does not strip leading blanks, so an indented marker
      that the current revision honours goes unnoticed. */
  lemma IndentedMarkerMissed(rest: string)
    ensures MarksAdjusted(Current, " " + "(Adjusted" + rest)
    ensures !MarksAdjusted(Legacy, " " + "(Adjusted" + rest)
  {
    var line := " " + "(Adjusted" + rest;
    var marked := "(Adjusted" + rest;
    assert line == [' '] + marked;
    assert !IsWhitespace(marked[0]);
    assert LStrip(line) == LStrip(marked) == marked;
    MarkerLine(Current, rest);
    assert Lower(line)[..9][0] != "(adjusted"[0];
  }
}
