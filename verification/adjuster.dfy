/** The current revision's `processFile`: it skips files whose name says they
    are already adjusted and files whose output already exists, converts the
    whole input in memory, and writes the output only when every line
    converted. */
module Adjuster {
  import opened Wrappers
  import opened Text
  import opened Pattern
  import opened Pipeline

  /** The name test: the lower-cased base name mentions "adjusted" but not
      "unadjusted". */
  predicate NameLooksAdjusted(base: string) {
    Contains(Lower(base), "adjusted") && !Contains(Lower(base), "unadjusted")
  }

  /** The output base name: every "FanucUnadjusted" becomes "FanucAdjusted";
      a name without one gets "Adjusted" appended instead.  Either way the
      result differs from the input. */
  function OutBaseName(base: string): (r: string)
    ensures r != base
    ensures r == base + "Adjusted" <==> !Contains(base, "FanucUnadjusted")
    ensures Contains(base, "FanucUnadjusted") ==> |r| < |base|
  {
    var replaced := Replace(base, "FanucUnadjusted", "FanucAdjusted");
    ReplaceAbsent(base, "FanucUnadjusted", "FanucAdjusted");
    ReplaceShrinks(base, "FanucUnadjusted", "FanucAdjusted");
    if replaced == base then base + "Adjusted" else replaced
  }

  /** The first "FanucUnadjusted" of a name becomes "FanucAdjusted", the
      text before it is kept, and the rest of the name is rewritten the same
      way. */
  lemma OutBaseNameFirst(pre: string, post: string)
    requires forall i: nat :: i < |pre| ==> !OccursAt(pre + "FanucUnadjusted" + post, "FanucUnadjusted", i)
    ensures OutBaseName(pre + "FanucUnadjusted" + post) ==
      pre + "FanucAdjusted" + Replace(post, "FanucUnadjusted", "FanucAdjusted")
  {
    ReplaceFirst(pre, "FanucUnadjusted", "FanucAdjusted", post);
    assert (pre + "FanucUnadjusted" + post)[|pre|..|pre| + 15] == "FanucUnadjusted";
    ContainsAt(pre + "FanucUnadjusted" + post, "FanucUnadjusted", |pre|);
  }

  /** No "FanucUnadjusted" is left in an output base name, whichever branch
      produced it. */
  lemma OutBaseNameClean(base: string)
    ensures !Contains(OutBaseName(base), "FanucUnadjusted")
  {
    if Contains(base, "FanucUnadjusted") {
      assert "FanucUnadjusted"[..13][5] != "FanucAdjusted"[5];
      assert SelfDelimiting("FanucUnadjusted", "FanucAdjusted");
      ReplaceLeavesNone(base, "FanucUnadjusted", "FanucAdjusted");
    } else {
      AdjustedAppended(base);
    }
  }

  /** Appending "Adjusted" to a name without "FanucUnadjusted" creates none:
      an occurrence reaching into the appended text would need an "A". */
  lemma AdjustedAppended(base: string)
    requires !Contains(base, "FanucUnadjusted")
    ensures !Contains(base + "Adjusted", "FanucUnadjusted")
  {
    var x := base + "Adjusted";
    forall i: nat
      ensures !OccursAt(x, "FanucUnadjusted", i)
    {
      if i + 15 <= |x| {
        if i + 15 <= |base| {
          NotContainsAt(base, "FanucUnadjusted", i);
          assert x[i..i + 15] == base[i..i + 15];
        } else {
          assert x[i..i + 15][|base| - i] == x[|base|] == 'A';
        }
      }
    }
    NoOccurrence(x, "FanucUnadjusted");
  }

  /** A name holding "FanucUnadjusted" holds "unadjusted" once lower-cased,
      so the name filter never skips it. */
  lemma UnadjustedInLower(base: string)
    ensures Contains(base, "FanucUnadjusted") ==> Contains(Lower(base), "unadjusted")
  {
    if Contains(base, "FanucUnadjusted") {
      var i := OccurrenceOf(base, "FanucUnadjusted");
      assert base[i + 5..i + 15] == base[i..i + 15][5..] == "Unadjusted";
      LowerSlice(base, i + 5, i + 15);
      assert Lower("Unadjusted") == "unadjusted";
      ContainsAt(Lower(base), "unadjusted", i + 5);
    }
  }

  /** Appending "adjusted" to a text that neither holds "unadjusted" nor
      ends in "un" creates no "unadjusted". */
  lemma NoUnadjustedAppended(l: string)
    requires !Contains(l, "unadjusted") && !EndsWith(l, "un")
    ensures !Contains(l + "adjusted", "unadjusted")
  {
    var x := l + "adjusted";
    forall i: nat
      ensures !OccursAt(x, "unadjusted", i)
    {
      if i + 10 <= |x| {
        if i + 10 <= |l| {
          NotContainsAt(l, "unadjusted", i);
          assert x[i..i + 10] == l[i..i + 10];
        } else if i + 2 == |l| {
          assert x[i..i + 2] == l[i..];
          assert x[i..i + 10][..2] == x[i..i + 2];
        } else {
          assert x[i..i + 10][|l| - i] == x[|l|] == 'a';
        }
      }
    }
    NoOccurrence(x, "unadjusted");
  }

  /** For a name the filter lets through without an "unadjusted" in it, the
      output's base name is one the filter skips, unless the name ends in
      "un": then the appended "Adjusted" completes an "unadjusted" and the
      output would be taken as input again on a later run. */
  lemma OutputNameSkipped(base: string)
    requires !Contains(Lower(base), "unadjusted")
    ensures NameLooksAdjusted(OutBaseName(base)) <==> !EndsWith(Lower(base), "un")
  {
    UnadjustedInLower(base);
    var l := Lower(base);
    var x := l + "adjusted";
    LowerAppend(base, "Adjusted");
    assert Lower("Adjusted") == "adjusted";
    assert Lower(OutBaseName(base)) == x;
    ContainsAt(x, "adjusted", |l|);
    if EndsWith(l, "un") {
      assert x[|l| - 2..|l| + 8] == "unadjusted";
      ContainsAt(x, "unadjusted", |l| - 2);
    } else {
      NoUnadjustedAppended(l);
    }
  }

  /** The output is always a `.txt` file. */
  function OutFileName(base: string): string {
    OutBaseName(base) + ".txt"
  }

  /** `(base, ext)` is what `os.path.splitext` returns for `base + ext`: the
      extension runs from the last dot, holds no other dot, and follows at
      least one character that is not a dot; when there is no such dot the
      extension is empty and every dot of the name belongs to its run of
      leading dots. */
  predicate IsSplitExt(base: string, ext: string) {
    if ext == "" then
      forall i, j :: 0 <= j < i < |base| && base[i] == '.' ==> base[j] == '.'
    else
      && ext[0] == '.'
      && (forall i :: 1 <= i < |ext| ==> ext[i] != '.')
      && exists i :: 0 <= i < |base| && base[i] != '.'
  }

  /** A name with no extension that mentions "FanucUnadjusted" cannot end
      in ".txt": that dot would have to be one of its leading dots, and the
      "F" stands before it. */
  lemma NoTxtSuffix(base: string)
    requires IsSplitExt(base, "") && Contains(base, "FanucUnadjusted")
    ensures !EndsWith(base, ".txt")
  {
    ContainsFirstChar(base, "FanucUnadjusted");
    var i :| 0 <= i < |base| && base[i] == 'F';
    if |base| >= 4 {
      var k := |base| - 4;
      if i >= k {
        assert base[k..][i - k] != ".txt"[i - k];
      } else {
        assert base[k] != '.';
        assert base[k..][0] != ".txt"[0];
      }
    }
  }

  /** The output file never has the input file's name, whatever its
      extension, so an input is never overwritten by its own output. */
  lemma OutputNeverInput(base: string, ext: string)
    requires IsSplitExt(base, ext)
    ensures OutFileName(base) != base + ext
  {
    var r := OutBaseName(base);
    var z := r + ".txt";
    var w := base + ext;
    if |z| == |w| {
      if ext == "" {
        if Contains(base, "FanucUnadjusted") {
          NoTxtSuffix(base);
          assert z[|z| - 4..] == ".txt";
          assert z[|z| - 4..] != w[|w| - 4..];
        }
      } else if |ext| > 4 {
        assert z[|z| - 4] != w[|w| - 4];
      } else {
        assert z[|base|] != w[|base|];
      }
    }
  }

  /** Why a conversion was given up, and at which line. */
  datatype Outcome =
    | Disabled
    | NameSkipped
    | OutputExists(name: string)
    | Abandoned(reason: StopReason, at: nat)
    | Written(name: string, contents: seq<string>, count: nat)

  /** Everything before the conversion itself lets it go ahead. */
  predicate Proceeds(model: Option<QuadrupoleModel>, base: string, present: string -> bool) {
    model.Some? && !NameLooksAdjusted(base) && !present(OutFileName(base))
  }

  /** One call of `processFile`.  `model` is `None` when no model was
      configured, `present` tells which file names already exist in the
      input's directory, and `lines` are the input's lines with their line
      ends.  Either every line converts and the output is written, or
      nothing is written at all. */
  function ProcessFile(model: Option<QuadrupoleModel>, f: Formatter, base: string, present: string -> bool, lines: seq<string>): (r: Outcome)
    ensures r.Disabled? <==> model.None?
    ensures r.NameSkipped? <==> model.Some? && NameLooksAdjusted(base)
    ensures r.OutputExists? <==>
      model.Some? && !NameLooksAdjusted(base) && present(OutFileName(base))
    ensures r.OutputExists? ==> r.name == OutFileName(base)
    ensures r.Written? <==>
      Proceeds(model, base, present) && forall i :: 0 <= i < |lines| ==> Emits(Current, model.value, f, lines[i])
    ensures r.Written? ==>
      && r.name == OutFileName(base)
      && Laid(StepsOf(Current, model.value, f, lines), Annotation(Current, model.value, f), |lines|, |lines| >= 3, r.contents)
      && r.count == |Matched(Current, lines, |lines|)|
    ensures r.Abandoned? ==>
      && Proceeds(model, base, present)
      && FirstStop(StepsOf(Current, model.value, f, lines), r.at)
      && (r.reason == AlreadyAdjusted <==> MarksAdjusted(Current, lines[r.at]))
  {
    match model
    case None => Disabled
    case Some(m) =>
      if NameLooksAdjusted(base) then NameSkipped
      else if present(OutFileName(base)) then OutputExists(OutFileName(base))
      else
        match Convert(Current, m, f, lines)
        case Finished(out, count) => Written(OutFileName(base), out, count)
        case Stopped(reason, at, _) => Abandoned(reason, at)
  }

  /** The annotation carries the "already adjusted" marker. */
  lemma AnnotationMarked(d: Dialect, m: QuadrupoleModel, f: Formatter)
    ensures MarksAdjusted(d, Annotation(d, m, f))
  {
    var a := Annotation(d, m, f);
    assert a == "(Adjusted" + a[9..];
    MarkerLine(d, a[9..]);
  }

  /** Feeding an output of three or more lines back in never writes again:
      its third line is the annotation, which carries the marker. */
  lemma RerunRejected(m: QuadrupoleModel, f: Formatter, base: string, present: string -> bool, lines: seq<string>,
                      base2: string, present2: string -> bool)
    requires |lines| >= 3
    requires ProcessFile(Some(m), f, base, present, lines).Written?
    ensures !ProcessFile(Some(m), f, base2, present2, ProcessFile(Some(m), f, base, present, lines).contents).Written?
  {
    var out := ProcessFile(Some(m), f, base, present, lines).contents;
    AnnotationMarked(Current, m, f);
    assert !Emits(Current, m, f, out[2]);
  }

  /** The example name of the documentation: "Unadjusted" turns into
      "Adjusted" and the extension becomes `.txt`. */
  lemma ExampleName()
    ensures OutFileName("plNorth" + "FanucUnadjusted" + "-0050") == "plNorth" + "FanucAdjusted" + "-0050" + ".txt"
  {
    var name := "plNorth" + "FanucUnadjusted" + "-0050";
    forall i: nat | i < 7
      ensures !OccursAt(name, "FanucUnadjusted", i)
    {
      if i + 15 <= |name| {
        assert name[i..i + 15][0] == name[i] != 'F';
      }
    }
    OutBaseNameFirst("plNorth", "-0050");
  }
}
