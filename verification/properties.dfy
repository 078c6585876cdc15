/**
 Properties of the rendered header and of the legacy-line matcher: the shape
 of the header for each comment mark, what it reads back as, that it carries
 the detection pattern, that the matcher is the regular expression it stands
 for, and which lines the removal loop deletes.
 */
module HeaderProperties {
  import opened Text
  import opened Paths
  import opened LicenseHeader

  // ---------------------------------------------------------------------------
  // The rendered header

  predicate NoNewlines(template: seq<string>)
  {
    forall j :: 0 <= j < |template| ==> '\n' !in template[j]
  }

  lemma HeaderLineAt(mark: string, template: seq<string>, i: int)
    requires 0 <= i < |template|
    ensures HeaderLines(mark, template)[if mark == "*" then 1 + i else i] == RenderLine(mark, template[i])
  {
  }

  /** A rendered line has no newline but its last character. */
  lemma RenderLineIsTerminated(mark: string, l: string)
    requires '\n' !in mark && '\n' !in l
    ensures IsTerminatedLine(RenderLine(mark, l))
  {
    var line := RenderLine(mark, l);
    var body := Prefix(mark) + (if |l| > 0 then " " + l else "");
    assert line == body + "\n";
    assert '\n' !in body;
    assert forall m :: 0 <= m < |line| - 1 ==> line[m] == body[m];
  }

  /** Every line of a header rendered from a newline-free template ends in its own newline. */
  lemma HeaderLinesAreTerminated(mark: string, template: seq<string>)
    requires '\n' !in mark && NoNewlines(template)
    ensures forall j :: 0 <= j < |HeaderLines(mark, template)| ==> IsTerminatedLine(HeaderLines(mark, template)[j])
  {
    var hl := HeaderLines(mark, template);
    var off := if mark == "*" then 1 else 0;
    forall j | 0 <= j < |hl|
      ensures IsTerminatedLine(hl[j])
    {
      if off <= j < off + |template| {
        HeaderLineAt(mark, template, j - off);
        RenderLineIsTerminated(mark, template[j - off]);
      }
    }
  }

  /** Reading a rendered header back yields exactly its lines. */
  lemma HeaderReadsBack(mark: string, template: seq<string>)
    requires '\n' !in mark && NoNewlines(template)
    ensures ReadLines(Concat(HeaderLines(mark, template))) == HeaderLines(mark, template)
  {
    HeaderLinesAreTerminated(mark, template);
    ReadLinesOfConcat(HeaderLines(mark, template), []);
    assert Concat(HeaderLines(mark, template)) + [] == Concat(HeaderLines(mark, template));
  }

  /** Stripping the comment mark recovers any template line. */
  lemma UncommentRenderLine(mark: string, l: string)
    ensures StartsWith(RenderLine(mark, l), Prefix(mark))
    ensures Uncomment(mark, RenderLine(mark, l)) == Some(l)
  {
    var pre := Prefix(mark);
    var line := RenderLine(mark, l);
    assert line[..|pre|] == pre;
    var t := line[|pre|..];
    if |l| > 0 {
      assert t == [' '] + l + "\n";
      assert t[1..|t| - 1] == l;
    } else {
      assert t == "\n";
    }
  }

  /** A line that uncomments to `l` is exactly the rendering of `l`. */
  lemma UncommentedLineIsRendered(mark: string, line: string, l: string)
    requires Uncomment(mark, line) == Some(l)
    ensures line == RenderLine(mark, l)
  {
    var pre := Prefix(mark);
    var t := line[|pre|..];
    assert line == pre + t;
    if t != "\n" {
      assert t == " " + l + "\n";
    }
  }

  /** Uncommenting is the exact inverse of rendering: no other line uncomments to `l`. */
  lemma UncommentIsRenderInverse(mark: string, line: string, l: string)
    ensures Uncomment(mark, line) == Some(l) <==> line == RenderLine(mark, l)
  {
    if Uncomment(mark, line) == Some(l) {
      UncommentedLineIsRendered(mark, line, l);
    }
    if line == RenderLine(mark, l) {
      UncommentRenderLine(mark, l);
    }
  }

  /**
   The shape of a rendered header: for `*` an opening `/*` line, then one
   commented line per template line, for `*` a closing ` */` line, then a blank
   line; every commented line starts with the mark and uncomments to its
   template line.
   */
  lemma HeaderShape(mark: string, template: seq<string>)
    requires mark == "#" || mark == "*"
    ensures var hl := HeaderLines(mark, template);
      var off := if mark == "*" then 1 else 0;
      && |hl| == |template| + 2 * off + 1
      && (mark == "*" ==> hl[0] == "/*\n" && hl[|hl| - 2] == " */\n")
      && hl[|hl| - 1] == "\n"
      && forall i :: 0 <= i < |template| ==>
           StartsWith(hl[off + i], Prefix(mark)) && Uncomment(mark, hl[off + i]) == Some(template[i])
  {
    forall i | 0 <= i < |template|
      ensures StartsWith(RenderLine(mark, template[i]), Prefix(mark))
      ensures Uncomment(mark, RenderLine(mark, template[i])) == Some(template[i])
    {
      UncommentRenderLine(mark, template[i]);
    }
  }

  /** Uncommenting the commented lines of a rendered header gives back the template. */
  lemma UncommentedHeader(mark: string, template: seq<string>)
    requires mark == "#" || mark == "*"
    ensures var hl := HeaderLines(mark, template);
      var off := if mark == "*" then 1 else 0;
      seq(|template|, i requires 0 <= i < |template| && off + i < |hl| => Uncomment(mark, hl[off + i]))
        == seq(|template|, i requires 0 <= i < |template| => Some(template[i]))
  {
    HeaderShape(mark, template);
  }

  /**
   The license header as a file reads it back is exactly its rendered lines,
   whose commented part (see `HeaderShape`) uncomments to the lines of the
   license text.
   */
  lemma LicenseHeaderReadsBack(mark: string)
    requires '\n' !in mark
    ensures ReadLines(GetLicense(mark)) == HeaderLines(mark, License)
    ensures JoinLines(License) == LicenseText
  {
    HeaderReadsBack(mark, License);
  }

  /** What `_get_license` returns for a known mark is a non-empty run of whole lines, read back as the header lines. */
  lemma LicenseHeaderIsWholeLines(mark: string)
    requires mark == "#" || mark == "*"
    ensures var g := GetLicense(mark); |g| > 0 && g[|g| - 1] == '\n'
    ensures ReadLines(GetLicense(mark)) == HeaderLines(mark, License)
  {
    LicenseHeaderReadsBack(mark);
    HeaderEndsWithNewline(mark, License);
  }

  lemma PatternHasNoNewline()
    ensures |LicensePatterns[0]| > 0 && '\n' !in LicensePatterns[0]
  {
  }

  /** The license text starts with the detection pattern. */
  lemma LicenseTextHasPattern()
    ensures StartsAt(LicenseText, LicensePatterns[0], 0)
  {
    var first := "Licensed to the Apache Software Foundation (ASF) under one\n";
    assert LicensePatterns[0] <= first;
    assert first <= LicenseText;
  }

  /** The header contains the detection pattern. */
  lemma PatternInHeader(mark: string)
    ensures Occurs(LicensePatterns[0], GetLicense(mark))
  {
    var p := LicensePatterns[0];
    LicenseTextHasPattern();
    PatternHasNoNewline();
    OccurrenceStaysInOnePiece(LicenseText, p, 0);
    var j :| 0 <= j < |License| && Occurs(p, License[j]);
    PatternInRenderedLine(mark, License, j, p);
  }

  lemma PatternInRenderedLine(mark: string, template: seq<string>, j: int, p: string)
    requires 0 <= j < |template| && Occurs(p, template[j])
    ensures Occurs(p, Concat(HeaderLines(mark, template)))
  {
    var l := template[j];
    var line := RenderLine(mark, l);
    if |l| > 0 {
      assert line == (Prefix(mark) + (" " + l)) + "\n";
      OccursInConcat(" ", l, p);
      OccursInConcat(Prefix(mark), " " + l, p);
      OccursInConcat(Prefix(mark) + (" " + l), "\n", p);
    } else {
      var i :| 0 <= i <= |l| && StartsAt(l, p, i);
      assert p == [];
      assert StartsAt(line, p, 0);
    }
    HeaderLineAt(mark, template, j);
    OccursInChunk(HeaderLines(mark, template), if mark == "*" then 1 + j else j, p);
  }

  /** A rendered header ends in a newline (it ends with a blank line). */
  lemma HeaderEndsWithNewline(mark: string, template: seq<string>)
    ensures var h := Concat(HeaderLines(mark, template)); |h| > 0 && h[|h| - 1] == '\n'
  {
    var hl := HeaderLines(mark, template);
    var n := |hl|;
    assert hl == hl[..n - 1] + ["\n"];
    ConcatAppend(hl[..n - 1], ["\n"]);
    assert Concat(["\n"]) == "\n";
  }

  // ---------------------------------------------------------------------------
  // The legacy line

  /** The matcher accepts exactly the lines the regular expression matches. */
  lemma MatchesOldLicenseIsRegexMatch(l: string)
    ensures MatchesOldLicense(l) <==> OldLicenseRegex(l)
  {
    if MatchesOldLicense(l) {
      MatcherIsSound(l);
    }
    if OldLicenseRegex(l) {
      var i, j :|
        && StartsAt(l, Copyright, i)
        && StartsAt(l, ByContributors, j)
        && i + |Copyright| <= j
        && forall m :: 0 <= m < j ==> l[m] != '\n';
      MatcherIsComplete(l, i, j);
    }
  }

  lemma MatcherIsSound(l: string)
    requires MatchesOldLicense(l)
    ensures OldLicenseRegex(l)
  {
    var h := l[..NewlineIndex(l)];
    var i := FindFrom(h, Copyright, 0);
    var j := FindFrom(h, ByContributors, i + |Copyright|);
    PrefixOccurrence(l, h, Copyright, i);
    PrefixOccurrence(l, h, ByContributors, j);
  }

  lemma MatcherIsComplete(l: string, i: int, j: int)
    requires StartsAt(l, Copyright, i) && StartsAt(l, ByContributors, j)
    requires i + |Copyright| <= j
    requires forall m :: 0 <= m < j ==> l[m] != '\n'
    ensures MatchesOldLicense(l)
  {
    var n := NewlineIndex(l);
    var h := l[..n];
    assert forall m :: j <= m < j + |ByContributors| ==> l[m] == ByContributors[m - j];
    assert '\n' !in ByContributors;
    assert j + |ByContributors| <= n;
    PrefixOccurrence(l, h, Copyright, i);
    PrefixOccurrence(l, h, ByContributors, j);
    OccursIffFound(h, Copyright);
    assert Occurs(Copyright, h);
    var i0 := FindFrom(h, Copyright, 0);
    assert i0 <= i;
  }

  /** An occurrence inside a prefix of `l` is an occurrence in `l`, and one that fits in the prefix is in it. */
  lemma PrefixOccurrence(l: string, h: string, p: string, i: int)
    requires h <= l && 0 <= i && i + |p| <= |h|
    ensures StartsAt(h, p, i) <==> StartsAt(l, p, i)
  {
    assert h[i..i + |p|] == l[i..i + |p|];
  }

  /** The loop deletes at most one line, the first legacy one, and keeps every other line in order. */
  lemma KeptDeletesAtMostOne(ext: string, lines: seq<string>)
    ensures var r := Kept(ext, lines);
      || (r == lines && (ext !in LegacyExts || NoOldLicense(lines)))
      || (&& ext in LegacyExts
          && exists i :: 0 <= i < |lines| && MatchesOldLicense(lines[i]) && NoOldLicense(lines[..i])
               && r == lines[..i] + lines[i + 1..])
  {
  }
}
