/**
 The license-header tool: its configuration tables, the detection of an
 existing Apache license, the rendering of the license as a comment block,
 the eligibility rule for file names, the removal of a legacy copyright line
 and the in-memory rewrite of one file's lines.

 A file is given by its name and the list of lines `readlines` returned for
 it; the rewrite is described by the sequence of strings passed to `write`,
 whose concatenation is the new content of the file.
 */
module LicenseHeader {
  import opened Text
  import opened Paths

  /**
   The Apache-2.0 license text (`_LICENSE`), without a final newline. The
   concatenation nests to the right, so each license line is a prefix of the
   text from that line on.
   */
  const LicenseText: string :=
    "Licensed to the Apache Software Foundation (ASF) under one\n" +
    ("or more contributor license agreements.  See the NOTICE file\n" +
    ("distributed with this work for additional information\n" +
    ("regarding copyright ownership.  The ASF licenses this file\n" +
    ("to you under the Apache License, Version 2.0 (the\n" +
    ("\"License\"); you may not use this file except in compliance\n" +
    ("with the License.  You may obtain a copy of the License at\n" +
    ("\n" +
    ("  http://www.apache.org/licenses/LICENSE-2.0\n" +
    ("\n" +
    ("Unless required by applicable law or agreed to in writing,\n" +
    ("software distributed under the License is distributed on an\n" +
    ("\"AS IS\" BASIS, WITHOUT WARRANTIES OR CONDITIONS OF ANY\n" +
    ("KIND, either express or implied.  See the License for the\n" +
    ("specific language governing permissions and limitations\n" +
    ("under the License.")))))))))))))))

  /** The template lines the header is rendered from (`_LICENSE.split('\n')`). */
  const License: seq<string> := SplitLines(LicenseText)

  /** A file containing any of these substrings is considered licensed already. */
  const LicensePatterns: seq<string> := ["Licensed to the Apache Software Foundation"]

  /** Paths containing any of these substrings are skipped. */
  const WhiteList: seq<string> := [
    "R-package/",
    "cub/",
    "dlpack/",
    "dmlc-core/",
    "mshadow/",
    "nnvm",
    "ps-lite",
    "src/operator/mkl/",
    "src/operator/contrib/ctc_include/"
  ]

  /** Recognised extensions and their comment mark: `#` for line comments, `*` for a `/* ... */` block. */
  const Langs: map<string, string> := map[
    ".cc" := "*", ".h" := "*", ".cu" := "*", ".cuh" := "*", ".py" := "#",
    ".pm" := "#", ".scala" := "*", ".sh" := "#", ".cmake" := "#"
  ]

  /** Extensions whose files may carry the legacy copyright line. */
  const LegacyExts: set<string> := {".h", ".cc", ".cu"}

  // ---------------------------------------------------------------------------
  // Detection

  /** `any(p in s for p in ps)`. */
  function AnyOccurs(ps: seq<string>, s: string): (r: bool)
    ensures r <==> exists q :: 0 <= q < |ps| && Occurs(ps[q], s)
  {
    if |ps| == 0 then false
    else Occurs(ps[0], s) || AnyOccurs(ps[1..], s)
  }

  /** Some line contains some license pattern. */
  function HasLicense(lines: seq<string>): (r: bool)
    ensures r <==> exists j, q :: 0 <= j < |lines| && 0 <= q < |LicensePatterns| && Occurs(LicensePatterns[q], lines[j])
  {
    if |lines| == 0 then false
    else AnyOccurs(LicensePatterns, lines[0]) || HasLicense(lines[1..])
  }

  // ---------------------------------------------------------------------------
  // Rendering

  /** What precedes the text on a commented line: `#`, or ` *` inside a block. */
  function Prefix(mark: string): string
  {
    (if mark == "*" then " " else "") + mark
  }

  /** One template line as a comment line; an empty template line gets the bare mark. */
  function RenderLine(mark: string, l: string): string
  {
    Prefix(mark) + (if |l| > 0 then " " + l else "") + "\n"
  }

  /** The lines of a header rendered from `template`: block opener, commented template, block closer, blank line. */
  function HeaderLines(mark: string, template: seq<string>): seq<string>
  {
    (if mark == "*" then ["/*\n"] else [])
    + seq(|template|, i requires 0 <= i < |template| => RenderLine(mark, template[i]))
    + (if mark == "*" then [" */\n"] else [])
    + ["\n"]
  }

  /** `_get_license(mark)`: the license header as one string. */
  function GetLicense(mark: string): string
  {
    Concat(HeaderLines(mark, License))
  }

  datatype Option<T> = None | Some(value: T)

  /**
   Inverse of `RenderLine`: the template line a commented line was rendered
   from, or `None` when the line does not have the rendered form (the prefix,
   then either just the newline, or a blank, non-empty text and the newline).
   */
  function Uncomment(mark: string, line: string): Option<string>
  {
    var pre := Prefix(mark);
    if !StartsWith(line, pre) then None
    else
      var t := line[|pre|..];
      if t == "\n" then Some("")
      else if |t| >= 3 && t[0] == ' ' && t[|t| - 1] == '\n' then Some(t[1..|t| - 1])
      else None
  }

  // ---------------------------------------------------------------------------
  // Eligibility

  datatype Eligibility = Eligible | Excluded | UnknownExtension

  /**
   `valid_file`, with the reason it prints when skipping a file: the
   white-list test comes first, the extension test second.
   */
  function Classify(fname: string): (v: Eligibility)
    ensures v == Excluded <==> exists q :: 0 <= q < |WhiteList| && Occurs(WhiteList[q], fname)
    ensures v == UnknownExtension <==>
      (forall q :: 0 <= q < |WhiteList| ==> !Occurs(WhiteList[q], fname)) && Ext(fname) !in Langs
    ensures v == Eligible <==>
      (forall q :: 0 <= q < |WhiteList| ==> !Occurs(WhiteList[q], fname)) && Ext(fname) in Langs
  {
    if AnyOccurs(WhiteList, fname) then Excluded
    else if Ext(fname) !in Langs then UnknownExtension
    else Eligible
  }

  predicate ValidFile(fname: string)
  {
    Classify(fname) == Eligible
  }

  // ---------------------------------------------------------------------------
  // Legacy copyright line

  const Copyright: string := "Copyright"
  const ByContributors: string := "by Contributors"

  /**
   The meaning of `re.match('.*Copyright.*by Contributors', l)`: anchored at the
   start of `l`, `Copyright` occurs and `by Contributors` occurs later, and no
   newline comes before the end of the match (`.` does not match a newline).
   */
  ghost predicate OldLicenseRegex(l: string)
  {
    exists i, j ::
      && StartsAt(l, Copyright, i)
      && StartsAt(l, ByContributors, j)
      && i + |Copyright| <= j
      && forall m :: 0 <= m < j ==> l[m] != '\n'
  }

  /** The matcher: within the text before the first newline, the leftmost `Copyright` is followed by `by Contributors`. */
  function MatchesOldLicense(l: string): bool
  {
    var h := l[..NewlineIndex(l)];
    var i := FindFrom(h, Copyright, 0);
    i != -1 && FindFrom(h, ByContributors, i + |Copyright|) != -1
  }

  predicate NoOldLicense(lines: seq<string>)
  {
    forall j :: 0 <= j < |lines| ==> !MatchesOldLicense(lines[j])
  }

  /** The loop that deletes the first legacy line and stops. */
  function RemoveOldLicense(lines: seq<string>): (r: seq<string>)
    ensures NoOldLicense(lines) ==> r == lines
    ensures !NoOldLicense(lines) ==>
      exists i :: 0 <= i < |lines| && MatchesOldLicense(lines[i]) && NoOldLicense(lines[..i])
        && r == lines[..i] + lines[i + 1..]
  {
    if |lines| == 0 then []
    else if MatchesOldLicense(lines[0]) then
      DeleteHead(lines);
      lines[1..]
    else
      var rest := RemoveOldLicense(lines[1..]);
      if NoOldLicense(lines[1..]) then
        ConsAppend(lines, []);
        [lines[0]] + rest
      else
        var i :| 0 <= i < |lines[1..]| && MatchesOldLicense(lines[1..][i]) && NoOldLicense(lines[1..][..i])
          && rest == lines[1..][..i] + lines[1..][i + 1..];
        DeleteUnderCons(lines, i);
        NoOldLicenseCons(lines, i);
        [lines[0]] + rest
  }

  lemma NoOldLicenseCons(lines: seq<string>, i: int)
    requires 0 <= i < |lines|
    requires !MatchesOldLicense(lines[0]) && NoOldLicense(lines[1..][..i])
    ensures NoOldLicense(lines[..i + 1])
  {
    assert lines[..i + 1] == [lines[0]] + lines[1..][..i];
  }

  /** Deleting index 0. */
  lemma DeleteHead<T>(s: seq<T>)
    requires |s| > 0
    ensures s[..0] + s[1..] == s[1..]
  {
  }

  /** Deleting index `i` of the tail is deleting index `i + 1` of the whole. */
  lemma DeleteUnderCons<T>(s: seq<T>, i: int)
    requires 0 <= i < |s| - 1
    ensures [s[0]] + (s[1..][..i] + s[1..][i + 1..]) == s[..i + 1] + s[i + 2..]
    ensures s[..i + 1][0] == s[0] && s[1..][i] == s[i + 1]
  {
    assert s[..i + 1] == [s[0]] + s[1..][..i];
    assert s[i + 2..] == s[1..][i + 1..];
  }

  // ---------------------------------------------------------------------------
  // The rewrite of one file

  datatype Outcome =
    | Unchanged
      /** The file was truncated and these strings were written to it, in order. */
    | Rewritten(writes: seq<string>)
      /** The file was truncated, then `lines[0]` raised: the file is left empty. */
    | TruncatedThenFailed

  /** The lines kept after the legacy line is removed, for the extensions that may carry one. */
  function Kept(ext: string, lines: seq<string>): seq<string>
  {
    if ext in LegacyExts then RemoveOldLicense(lines) else lines
  }

  /** The writes: a shebang line (plus a newline) first, then `header`, then the remaining lines. */
  function Layout(header: string, body: seq<string>): seq<string>
  {
    if |body| > 0 && StartsWith(body[0], "#!") then [body[0] + "\n", header] + body[1..]
    else [header] + body
  }

  /** `process_file` on a file named `fname` whose `readlines` gave `lines`. */
  function ProcessFile(fname: string, lines: seq<string>): (o: Outcome)
    ensures o.Unchanged? <==> !ValidFile(fname) || |lines| == 0 || HasLicense(lines)
    ensures o.TruncatedThenFailed? <==>
      && ValidFile(fname) && !HasLicense(lines)
      && Ext(fname) in LegacyExts && |lines| == 1 && MatchesOldLicense(lines[0])
    ensures o.Rewritten? ==> Ext(fname) in Langs
  {
    if !ValidFile(fname) || |lines| == 0 || HasLicense(lines) then Unchanged
    else
      var ext := Ext(fname);
      var body := Kept(ext, lines);
      if |body| == 0 then TruncatedThenFailed
      else Rewritten(Layout(GetLicense(Langs[ext]), body))
  }

  /** `process_file` with the empty-after-removal case writing the header alone instead of failing. */
  function ProcessFileCorrected(fname: string, lines: seq<string>): (o: Outcome)
    ensures !o.TruncatedThenFailed?
    ensures o.Unchanged? <==> !ValidFile(fname) || |lines| == 0 || HasLicense(lines)
  {
    if !ValidFile(fname) || |lines| == 0 || HasLicense(lines) then Unchanged
    else
      var ext := Ext(fname);
      Rewritten(Layout(GetLicense(Langs[ext]), Kept(ext, lines)))
  }

  /** The content a file has after `process_file` ran on it. */
  function Apply(content: string, o: Outcome): string
  {
    match o
    case Unchanged => content
    case Rewritten(writes) => Concat(writes)
    case TruncatedThenFailed => []
  }

  /** One run of the tool on one file: read its lines, process them, write the result. */
  function Run(fname: string, content: string): string
  {
    Apply(content, ProcessFile(fname, ReadLines(content)))
  }

  /** One run of the corrected tool on one file. */
  function RunCorrected(fname: string, content: string): string
  {
    Apply(content, ProcessFileCorrected(fname, ReadLines(content)))
  }
}
