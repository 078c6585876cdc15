/**
 Properties of `process_file` as a whole: which files it leaves alone, what a
 rewritten file reads back as, that a second run changes nothing, and the
 file that the as-written code empties.
 */
module RewriteProperties {
  import opened Text
  import opened Paths
  import opened LicenseHeader
  import opened HeaderProperties

  /** Every comment mark is `#` or `*`. */
  lemma MarksAreKnown(ext: string)
    requires ext in Langs
    ensures Langs[ext] == "#" || Langs[ext] == "*"
  {
  }

  /** Deleting element `i` shifts everything after it down by one. */
  lemma DeleteAt<T>(s: seq<T>, i: int)
    requires 0 <= i < |s|
    ensures |s[..i] + s[i + 1..]| == |s| - 1
    ensures forall k :: 0 <= k < |s| - 1 ==> (s[..i] + s[i + 1..])[k] == (if k < i then s[k] else s[k + 1])
  {
  }

  /** Deleting one line from what `readlines` returned keeps its shape. */
  lemma DeleteLineKeepsLineList(lines: seq<string>, i: int)
    requires IsLineList(lines) && 0 <= i < |lines|
    ensures IsLineList(lines[..i] + lines[i + 1..])
  {
    DeleteAt(lines, i);
  }

  /** Removing the legacy line keeps the shape `readlines` gives. */
  lemma KeptIsLineList(ext: string, lines: seq<string>)
    requires IsLineList(lines)
    ensures IsLineList(Kept(ext, lines))
  {
    KeptDeletesAtMostOne(ext, lines);
    var r := Kept(ext, lines);
    if r != lines {
      var i :| 0 <= i < |lines| && MatchesOldLicense(lines[i]) && NoOldLicense(lines[..i])
        && r == lines[..i] + lines[i + 1..];
      DeleteLineKeepsLineList(lines, i);
    }
  }

  lemma Cons2<T>(a: T, b: T, c: seq<T>)
    ensures [a, b] + c == [a] + ([b] + c)
  {
  }

  lemma Cons2Assoc<T>(a: T, b: T, c: seq<T>, d: seq<T>)
    ensures [a] + ([b] + (c + d)) == [a, b] + c + d
  {
  }

  /** The content of a shebang line, a header and the remaining lines, written in turn. */
  lemma ShebangContent(a: string, g: string, rest: seq<string>)
    ensures Concat([a + "\n", g] + rest) == a + ("\n" + (g + Concat(rest)))
  {
    var x := a + "\n";
    Cons2(x, g, rest);
    ConcatCons(x, [g] + rest);
    ConcatCons(g, rest);
    var t := g + Concat(rest);
    assert x + t == a + ("\n" + t);
  }

  /** The file content `Layout` writes, split at the header. */
  lemma LayoutContent(g: string, body: seq<string>)
    ensures |body| > 0 && StartsWith(body[0], "#!") ==>
      Concat(Layout(g, body)) == body[0] + ("\n" + (g + Concat(body[1..])))
    ensures !(|body| > 0 && StartsWith(body[0], "#!")) ==>
      Concat(Layout(g, body)) == g + Concat(body)
  {
    if |body| > 0 && StartsWith(body[0], "#!") {
      ShebangContent(body[0], g, body[1..]);
    } else {
      ConcatCons(g, body);
    }
  }

  /** An unterminated line with a newline appended is a terminated line. */
  lemma TerminateLine(l: string)
    requires IsLine(l) && !IsTerminatedLine(l)
    ensures IsTerminatedLine(l + "\n")
  {
    var t := l + "\n";
    assert forall m :: 0 <= m < |t| - 1 ==> t[m] == l[m];
  }

  /** Reading back a terminated shebang line, the extra newline, a header and the rest. */
  lemma TerminatedShebangReadsBack(a: string, g: string, rest: seq<string>)
    requires IsTerminatedLine(a) && |g| > 0 && g[|g| - 1] == '\n' && IsLineList(rest)
    ensures ReadLines(a + ("\n" + (g + Concat(rest)))) == [a, "\n"] + ReadLines(g) + rest
  {
    ReadLinesOfLineList(rest);
    ReadLinesCons(a, "\n" + (g + Concat(rest)));
    ReadLinesCons("\n", g + Concat(rest));
    ReadLinesAppend(g, Concat(rest));
    Cons2Assoc(a, "\n", ReadLines(g), rest);
  }

  /** Reading back a shebang line that had no newline of its own, then a header. */
  lemma BareShebangReadsBack(a: string, g: string)
    requires IsLine(a) && !IsTerminatedLine(a)
    ensures ReadLines(a + ("\n" + (g + Concat([])))) == [a + "\n"] + ReadLines(g)
  {
    TerminateLine(a);
    assert a + ("\n" + (g + Concat([]))) == (a + "\n") + g;
    ReadLinesCons(a + "\n", g);
  }

  /** Reading back a header followed by lines shaped like `readlines` output. */
  lemma HeaderThenLinesReadBack(g: string, body: seq<string>)
    requires |g| > 0 && g[|g| - 1] == '\n' && IsLineList(body)
    ensures ReadLines(g + Concat(body)) == ReadLines(g) + body
  {
    ReadLinesAppend(g, Concat(body));
    ReadLinesOfLineList(body);
  }

  /** The lines after the first keep the shape; an unterminated first line is the only line. */
  lemma LineListAfterFirst(body: seq<string>)
    requires IsLineList(body) && |body| > 0
    ensures IsLineList(body[1..])
    ensures !IsTerminatedLine(body[0]) ==> |body| == 1
  {
    if |body| > 1 {
      assert IsTerminatedLine(body[0]);
    }
  }

  /**
   Reading back what `Layout` wrote, for any header `g` that is a non-empty
   run of whole lines and a `body` shaped like `readlines` output.
   */
  lemma LayoutReadsBack(g: string, body: seq<string>)
    requires |g| > 0 && g[|g| - 1] == '\n'
    requires IsLineList(body) && |body| > 0
    ensures var out := ReadLines(Concat(Layout(g, body)));
      && (StartsWith(body[0], "#!") && IsTerminatedLine(body[0]) ==> out == [body[0], "\n"] + ReadLines(g) + body[1..])
      && (StartsWith(body[0], "#!") && !IsTerminatedLine(body[0]) ==> |body| == 1 && out == [body[0] + "\n"] + ReadLines(g))
      && (!StartsWith(body[0], "#!") ==> out == ReadLines(g) + body)
  {
    LayoutContent(g, body);
    LineListAfterFirst(body);
    var a := body[0];
    if StartsWith(a, "#!") {
      if IsTerminatedLine(a) {
        TerminatedShebangReadsBack(a, g, body[1..]);
      } else {
        assert body[1..] == [];
        BareShebangReadsBack(a, g);
      }
    } else {
      HeaderThenLinesReadBack(g, body);
    }
  }

  /**
   What a rewritten file reads back as: the shebang line (if the first kept
   line starts with `#!`) followed by an extra blank line, then exactly the
   header lines, then every kept line in its original order.
   */
  lemma RewriteReadsBack(fname: string, content: string)
    requires ProcessFile(fname, ReadLines(content)).Rewritten?
    ensures var body := Kept(Ext(fname), ReadLines(content));
      var hdr := HeaderLines(Langs[Ext(fname)], License);
      var out := ReadLines(Run(fname, content));
      && |body| > 0
      && (StartsWith(body[0], "#!") && IsTerminatedLine(body[0]) ==> out == [body[0], "\n"] + hdr + body[1..])
      && (StartsWith(body[0], "#!") && !IsTerminatedLine(body[0]) ==> |body| == 1 && out == [body[0] + "\n"] + hdr)
      && (!StartsWith(body[0], "#!") ==> out == hdr + body)
  {
    var lines := ReadLines(content);
    var ext := Ext(fname);
    var mark := Langs[ext];
    var body := Kept(ext, lines);
    KeptIsLineList(ext, lines);
    MarksAreKnown(ext);
    LicenseHeaderIsWholeLines(mark);
    LayoutReadsBack(GetLicense(mark), body);
  }

  /** Whatever `Layout` writes around a licensed header reads back as licensed. */
  lemma LayoutIsLicensed(g: string, body: seq<string>)
    requires Occurs(LicensePatterns[0], g)
    ensures HasLicense(ReadLines(Concat(Layout(g, body))))
  {
    var p := LicensePatterns[0];
    var w := Layout(g, body);
    OccursInChunk(w, if |body| > 0 && StartsWith(body[0], "#!") then 1 else 0, p);
    var i :| 0 <= i <= |Concat(w)| && StartsAt(Concat(w), p, i);
    PatternHasNoNewline();
    OccurrenceStaysOnOneLine(Concat(w), p, i);
  }

  /** A file the tool rewrote is left alone by the next run. */
  lemma SecondRunIsNoOp(fname: string, lines: seq<string>)
    requires ProcessFile(fname, lines).Rewritten?
    ensures ProcessFile(fname, ReadLines(Concat(ProcessFile(fname, lines).writes))) == Unchanged
  {
    var ext := Ext(fname);
    PatternInHeader(Langs[ext]);
    LayoutIsLicensed(GetLicense(Langs[ext]), Kept(ext, lines));
  }

  /** Running the tool twice on a file leaves the same content as running it once. */
  lemma RunIsIdempotent(fname: string, content: string)
    ensures Run(fname, Run(fname, content)) == Run(fname, content)
  {
    var o := ProcessFile(fname, ReadLines(content));
    match o
    case Unchanged =>
    case Rewritten(w) =>
      SecondRunIsNoOp(fname, ReadLines(content));
    case TruncatedThenFailed =>
      assert ReadLines([]) == [];
  }

  /** With nothing left to keep, only the header is written. */
  lemma LayoutOfNothing(g: string, body: seq<string>)
    requires body == []
    ensures Layout(g, body) == [g]
  {
  }

  /**
   The corrected rewrite differs from the original only where the original
   fails, and there it writes the header alone.
   */
  lemma CorrectedAgreesWithProcessFile(fname: string, lines: seq<string>)
    ensures ProcessFile(fname, lines).TruncatedThenFailed? ==>
      ProcessFileCorrected(fname, lines) == Rewritten([GetLicense(Langs[Ext(fname)])])
    ensures !ProcessFile(fname, lines).TruncatedThenFailed? ==>
      ProcessFileCorrected(fname, lines) == ProcessFile(fname, lines)
  {
    if ProcessFile(fname, lines).TruncatedThenFailed? {
      var ext := Ext(fname);
      LayoutOfNothing(GetLicense(Langs[ext]), Kept(ext, lines));
    }
  }

  /** The corrected rewrite is idempotent too. */
  lemma CorrectedSecondRunIsNoOp(fname: string, lines: seq<string>)
    requires ProcessFileCorrected(fname, lines).Rewritten?
    ensures ProcessFileCorrected(fname, ReadLines(Concat(ProcessFileCorrected(fname, lines).writes))) == Unchanged
  {
    var ext := Ext(fname);
    PatternInHeader(Langs[ext]);
    LayoutIsLicensed(GetLicense(Langs[ext]), Kept(ext, lines));
  }

  /** Running the corrected tool twice leaves the same content as running it once. */
  lemma RunCorrectedIsIdempotent(fname: string, content: string)
    ensures RunCorrected(fname, RunCorrected(fname, content)) == RunCorrected(fname, content)
  {
    if ProcessFileCorrected(fname, ReadLines(content)).Rewritten? {
      CorrectedSecondRunIsNoOp(fname, ReadLines(content));
    }
  }

  /** `a.h` is a `.h` file outside the excluded directories. */
  lemma HeaderFileIsValid()
    ensures Ext("a.h") == ".h"
    ensures ValidFile("a.h")
  {
    assert forall q :: 0 <= q < |WhiteList| ==> |WhiteList[q]| > 3;
    forall q | 0 <= q < |WhiteList|
      ensures !Occurs(WhiteList[q], "a.h")
    {
      LongerDoesNotOccur(WhiteList[q], "a.h");
    }
    var p := "a.h";
    assert p[0] == 'a' && p[1] == '.' && p[2] == 'h';
    assert ExtensionStartsAt(p, 1);
    ExtFromStart(p, 1);
  }

  lemma LegacyLineSpelledOut(l: string)
    requires l == "// Copyright by Contributors\n"
    ensures l == "// " + Copyright + " " + ByContributors + "\n"
  {
  }

  /** The legacy line `// Copyright by Contributors` matches and holds no license pattern. */
  lemma LegacyLineFacts(l: string)
    requires l == "// " + Copyright + " " + ByContributors + "\n"
    ensures MatchesOldLicense(l)
    ensures !HasLicense([l])
  {
    assert l[..13] == "// Copyright ";
    StartsAtMiddle("// ", Copyright, " " + ByContributors + "\n");
    StartsAtMiddle("// " + Copyright + " ", ByContributors, "\n");
    MatcherIsComplete(l, 3, 13);
    LongerDoesNotOccur(LicensePatterns[0], l);
  }

  /** `.h` files take a block comment. */
  lemma HeaderMarkIsBlock()
    ensures ".h" in Langs && Langs[".h"] == "*"
  {
  }

  /** The legacy line alone in a `.h` file: nothing is left after its removal. */
  lemma LegacyOnlyLineIsRemoved(l: string)
    requires MatchesOldLicense(l)
    ensures Kept(".h", [l]) == []
  {
  }

  /** A legacy-only `.h` file: the original fails after truncating it. */
  lemma LegacyOnlyFileFails(fname: string, l: string)
    requires ValidFile(fname) && Ext(fname) == ".h"
    requires MatchesOldLicense(l) && !HasLicense([l])
    ensures ProcessFile(fname, [l]) == TruncatedThenFailed
  {
    LegacyOnlyLineIsRemoved(l);
  }

  /** A legacy-only `.h` file: the corrected rewrite writes the header alone. */
  lemma LegacyOnlyFileGetsHeader(fname: string, l: string)
    requires ValidFile(fname) && Ext(fname) == ".h"
    requires MatchesOldLicense(l) && !HasLicense([l])
    ensures ProcessFileCorrected(fname, [l]) == Rewritten([GetLicense(Langs[Ext(fname)])])
  {
    LegacyOnlyLineIsRemoved(l);
    LayoutOfNothing(GetLicense(Langs[".h"]), Kept(".h", [l]));
  }

  /**
   A `.h` file whose only line is the legacy copyright line: the original
   truncates it and then fails on `lines[0]`, leaving it empty; the corrected
   rewrite gives it the header alone.
   */
  lemma LegacyOnlyFileIsEmptied()
    ensures ProcessFile("a.h", ["// Copyright by Contributors\n"]) == TruncatedThenFailed
    ensures ProcessFileCorrected("a.h", ["// Copyright by Contributors\n"]) == Rewritten([GetLicense("*")])
  {
    var l := "// Copyright by Contributors\n";
    LegacyLineSpelledOut(l);
    HeaderFileIsValid();
    LegacyLineFacts(l);
    LegacyOnlyFileFails("a.h", l);
    LegacyOnlyFileGetsHeader("a.h", l);
    HeaderMarkIsBlock();
  }
}
