# License-header tool, modelled in Dafny

The repository's maintenance script `tools/license_header.py` adds the
Apache-2.0 license header to source files that lack one. For each file it:

- decides eligibility from the path (an exclusion list of directory
  substrings) and the extension (a table of extensions and comment marks);
- detects an existing license by substring;
- for `.h`, `.cc` and `.cu` files, deletes the first legacy
  `Copyright ... by Contributors` line;
- rewrites the file as: an optional `#!` line, then the rendered header, then
  the remaining lines.

This project models that transform as pure functions and proves what it does.

Modules:

- `Text` (`text.dfy`). Substring search; Python's `readlines`, modelled as
  cutting after every newline; `str.split('\n')` and `'\n'.join`; and the
  concatenation of the strings passed to `write`.
- `Paths` (`paths.dfy`). The extension rule of POSIX `os.path.splitext`.
- `LicenseHeader` (`license_header.dfy`). It holds:
  - the constants `_LICENSE`, `_LICENSE_PATTERNS`, `_WHITE_LIST`, `_LANGS`
    and `_OLD_LICENSE`;
  - `_has_license` (`HasLicense`), `_get_license` (`GetLicense`) and
    `valid_file` (`Classify`, `ValidFile`);
  - the legacy-line loop (`RemoveOldLicense`, `Kept`);
  - `process_file` (`ProcessFile`).

  `ProcessFile` maps a file name and its `readlines` list to one of:
  - `Unchanged`;
  - `Rewritten(writes)`: the strings written, in order; the new file content
    is their concatenation;
  - `TruncatedThenFailed`: the file was opened for writing, then `lines[0]`
    raised, so the file is left empty.

  `Run` chains reading, processing and writing for one file.
- `HeaderProperties` (`properties.dfy`). The shape of the rendered header for
  `#` and `*`, what the header reads back as, that it carries the detection
  pattern, that the legacy-line matcher is exactly the regular expression, and
  which lines the removal loop deletes.
- `RewriteProperties` (`rewrite.dfy`). What a rewritten file reads back as,
  that a second run is a no-op, that running twice equals running once, and
  the file the as-written code empties.

Where the code does something other than one might expect, the model follows
the code:

- One might expect the header directly after the `#!` line.
  `f.write(lines[0]+'\n')` instead adds a newline to the shebang line as read.
  When that line ends in a newline, the file reads back with an extra blank line
  between the `#!` line and the header. A `#!` line without a newline of its
  own (the only line left after the legacy-line removal) just gains its
  newline, and the header follows it directly
  (`RewriteProperties.RewriteReadsBack`).
- The legacy pattern is `re.match('.*Copyright.*by Contributors', l)`. It
  needs `Copyright` before `by Contributors`, on the first physical line of
  `l`. Two words merely present in any order would not match.
- There is no `check` mode in the code, only in its docstring.
- `_LANGS` spells the key `'.cc'` twice with the same mark. The map has nine
  keys.

## Model

| member | source | states |
|---|---|---|
| `LicenseHeader.AnyOccurs` | tools/license_header.py:74-75 | `any(p in s for p in ps)` holds iff some pattern of the list occurs as a substring of `s` |
| `LicenseHeader.HasLicense` | tools/license_header.py:74-75 | a line list is licensed iff some line contains some license pattern. With no lines there is no witness, so an empty file is unlicensed |
| `Text.OccursIffFound` | tools/license_header.py:120 | the leftmost-match search the legacy-line matcher runs returns -1 exactly when the pattern does not occur in the text. `HeaderProperties.MatcherIsComplete` uses it to find the first `Copyright` |
| `Text.ReadLines` | tools/license_header.py:111 | the lines `readlines` returns concatenate back to the content. Each is non-empty with no newline before its end, and all but the last end in a newline |
| `Text.ReadLinesOfLineList` | tools/license_header.py:111 | reading back the concatenation of such a line list gives that very list |
| `Text.SplitLines` | tools/license_header.py:82 | `split('\n')` gives at least one piece. The first piece is the text before the first newline, no piece contains a newline, and `'\n'.join` of the pieces is the original text |
| `Text.OccurrenceStaysOnOneLine` | tools/license_header.py:74-75 | a newline-free pattern occurring anywhere in the content occurs within one of its `readlines` lines, so a per-line check finds it |
| `Text.OccurrenceStaysInOnePiece` | tools/license_header.py:82 | a newline-free pattern occurring in a text occurs within one of its `split('\n')` pieces |
| `Paths.Ext` | tools/license_header.py:100 | the extension is empty exactly when no dot can start one. Otherwise it is the suffix from the last dot of the final path component, which must have a non-dot before that dot |
| `Paths.ExtFromStart` | tools/license_header.py:116 | wherever an extension can start, `splitext` returns the suffix from there, so the start is unique |
| `LicenseHeader.Classify` | tools/license_header.py:95-105 | excluded iff some exclusion-list entry occurs in the name, whatever the extension. Otherwise unknown iff the extension is not a `_LANGS` key, and eligible iff it is |
| `LicenseHeader.ValidFile` | tools/license_header.py:95-105 | `valid_file` holds exactly when `Classify` gives eligible. Its contract is the three-way iff stated by `LicenseHeader.Classify` |
| `LicenseHeader.MatchesOldLicense` | tools/license_header.py:72 | `_OLD_LICENSE.match(l)`. That it is exactly the regular expression, in both directions, is stated by `HeaderProperties.MatchesOldLicenseIsRegexMatch` |
| `LicenseHeader.Kept` | tools/license_header.py:116-122 | the lines left after the removal step. That nothing is deleted outside `.h`/`.cc`/`.cu` and otherwise at most the first legacy line is deleted is stated by `HeaderProperties.KeptDeletesAtMostOne`; `RewriteProperties.KeptIsLineList` states that the `readlines` shape is kept |
| `LicenseHeader.GetLicense` | tools/license_header.py:77-93 | `_get_license(mark)`. Its shape for `#` and `*` is stated by `HeaderProperties.HeaderShape`, its read-back as whole lines by `HeaderProperties.HeaderReadsBack`, and that it contains the detection pattern by `HeaderProperties.PatternInHeader` |
| `LicenseHeader.Layout` | tools/license_header.py:124-130 | the strings written: the shebang line plus a newline, then the header, then the rest. What they read back as is stated by `RewriteProperties.LayoutReadsBack` |
| `LicenseHeader.Apply` | tools/license_header.py:123-130 | the file content after one outcome: untouched, the concatenation of the writes, or empty after truncation. What a rewritten file reads back as is stated by `RewriteProperties.RewriteReadsBack` |
| `LicenseHeader.Run` | tools/license_header.py:107-131 | one read-process-write of a single file. `RewriteProperties.RewriteReadsBack` states the result of a rewrite, and `RewriteProperties.RunIsIdempotent` states that a second run on the same file changes nothing |
| `LicenseHeader.RunCorrected` | tools/license_header.py:107-130 | one read-process-write of a single file with the corrected rewrite. `RewriteProperties.RunCorrectedIsIdempotent` states that a second run on the same file changes nothing |
| `LicenseHeader.RemoveOldLicense` | tools/license_header.py:118-122 | with no legacy line the list is unchanged. Otherwise exactly the first legacy line is deleted, and the lines before and after it keep their order |
| `LicenseHeader.ProcessFile` | tools/license_header.py:107-130 | unchanged iff the file is not valid, has no lines, or is licensed. It fails after truncation iff a legacy-extension file's only line is the legacy line. A rewrite only happens for a known extension |
| `LicenseHeader.ProcessFileCorrected` | tools/license_header.py:123-130 | the corrected rewrite never fails and is unchanged under the same three guards |
| `HeaderProperties.HeaderShape` | tools/license_header.py:77-93 | for `*` the header opens with `/*`, then one line per template line, then ` */`; for `#` it is one line per template line. Both end with a blank line. Each commented line starts with `#` or ` *` and uncomments to its template line |
| `HeaderProperties.UncommentedHeader` | tools/license_header.py:82-88 | uncommenting the commented lines of the header gives back the template lines exactly |
| `HeaderProperties.UncommentRenderLine` | tools/license_header.py:83-88 | a rendered line starts with the mark prefix; dropping that prefix, the separating blank and the newline gives back the template line, including an empty one |
| `HeaderProperties.UncommentIsRenderInverse` | tools/license_header.py:83-88 | a line uncomments to `l` exactly when it is the rendering of `l`: the mark prefix, then the bare newline for an empty `l`, otherwise one blank, `l` and the newline |
| `HeaderProperties.HeaderReadsBack` | tools/license_header.py:77-93 | every rendered line ends in its own newline, so the header read back by `readlines` is exactly its list of lines |
| `HeaderProperties.LicenseHeaderReadsBack` | tools/license_header.py:36-51 | the header of the license reads back as its rendered lines, and the template lines join back to `_LICENSE` |
| `HeaderProperties.LicenseTextHasPattern` | tools/license_header.py:36-54 | `_LICENSE` starts with the detection pattern |
| `HeaderProperties.PatternInHeader` | tools/license_header.py:77-93 | the rendered header, for any mark, contains the detection pattern |
| `HeaderProperties.HeaderEndsWithNewline` | tools/license_header.py:92 | the rendered header is non-empty and ends in a newline |
| `HeaderProperties.MatchesOldLicenseIsRegexMatch` | tools/license_header.py:72 | the legacy-line matcher accepts a line iff `re.match('.*Copyright.*by Contributors')` does: `Copyright`, later `by Contributors`, no newline before the match ends |
| `HeaderProperties.KeptDeletesAtMostOne` | tools/license_header.py:116-122 | outside `.h`/`.cc`/`.cu` or without a legacy line, nothing is deleted. Otherwise exactly the first legacy line is deleted and the rest keep their order |
| `RewriteProperties.MarksAreKnown` | tools/license_header.py:68-69 | every extension in the table maps to `#` or `*` |
| `RewriteProperties.KeptIsLineList` | tools/license_header.py:118-122 | deleting the legacy line keeps the shape of a `readlines` list |
| `RewriteProperties.LayoutReadsBack` | tools/license_header.py:123-130 | reading back what is written: a terminated `#!` line, then a blank line, the header lines, the rest. An unterminated `#!` line is the only line and gains its newline. Without a shebang it is the header lines, then the body |
| `RewriteProperties.RewriteReadsBack` | tools/license_header.py:107-130 | a rewritten file reads back as an optional shebang line, then exactly the rendered header lines for the file's mark, then every kept line in its original order. An extra blank line follows the `#!` line when it ends in a newline; a `#!` line without one only gains its newline. The kept lines are those of the content after newline translation, see "Left out" |
| `RewriteProperties.LayoutIsLicensed` | tools/license_header.py:128 | whatever is written around a header containing the pattern reads back as licensed |
| `RewriteProperties.SecondRunIsNoOp` | tools/license_header.py:114-115 | processing the lines of a file this tool just rewrote leaves it unchanged |
| `RewriteProperties.RunIsIdempotent` | tools/license_header.py:107-130 | running the tool twice on one file leaves the same content as running it once. This is per file only; a tree walk is not covered, see "Left out" |
| `RewriteProperties.CorrectedAgreesWithProcessFile` | tools/license_header.py:123-127 | the corrected rewrite agrees with the original except where the original fails. There it writes the header alone |
| `RewriteProperties.CorrectedSecondRunIsNoOp` | tools/license_header.py:114-115 | a file the corrected rewrite produced is left alone by the next run |
| `RewriteProperties.RunCorrectedIsIdempotent` | tools/license_header.py:107-130 | running the corrected tool twice on a file leaves the same content as running it once |
| `RewriteProperties.LegacyOnlyFileIsEmptied` | tools/license_header.py:118-127 | for `a.h` holding only `// Copyright by Contributors`, the original truncates and fails, while the corrected rewrite writes the block header |

## Left out

- `process_folder`, `os.walk` and the `__main__` entry (tools/license_header.py:133-139). The walk is not modelled; the model covers one file at a time, as `Run` on one name and content. The walk has no `try`. So the `IndexError` behind `TruncatedThenFailed` ends the whole walk, and every file after the failing one is left untouched. A second run then rewrites those files. For a whole tree, running twice can therefore differ from running once, although `RewriteProperties.RunIsIdempotent` holds for each file.
- `open`, `readlines` and `write` are not modelled as I/O. Input is the content (or its line list) and output is the list of written strings. A crash between the truncation and the last write is not modelled; `TruncatedThenFailed` covers only the exception raised by `lines[0]`.
- `print` and the `verbose` messages (tools/license_header.py:97-98, 102-103, 131) are side effects only.
- The `check` mode named in the docstring (tools/license_header.py:27-29) is not implemented in the code.
- There is no general regular-expression engine. Only the one legacy pattern is modelled, by a hand-written matcher proved equal to its meaning.
- Text.ReadLines: content is taken after universal-newline translation. `\r` and `\r\n` are not split, because text mode has already turned them into `\n`. Writes are taken to emit `\n` as is, as on POSIX. So a file with `\r\n` or `\r` line endings comes back from a rewrite with `\n` endings, and "every kept line in its original order" (`RewriteProperties.RewriteReadsBack`) holds for the translated content, not byte for byte.
- Paths.Ext: only POSIX `splitext`. The Windows `ntpath` rule, with `\` and drive letters, is not modelled.
- Unicode: strings are sequences of characters. Decoding errors raised by `readlines` (tools/license_header.py:111) are not modelled; like the `IndexError`, one would end the walk.

## Findings

| source | as written | input that shows it | evidently intended | confidence | as-written member | corrected member |
|---|---|---|---|---|---|---|
| tools/license_header.py:118-127 | The file is opened for writing (truncating it) after the legacy line is deleted. `lines[0]` is then read even when that deletion left no lines. The `IndexError` is not caught in `process_folder` (:133-136), so it also ends the walk and leaves every later file unprocessed. | `a.h` whose only line is `// Copyright by Contributors`: the loop deletes it, `open(fname, 'w')` empties the file, `lines[0]` raises `IndexError`, and the file is left empty | the file gets the license header alone | medium, not executed | `LicenseHeader.ProcessFile`, `RewriteProperties.LegacyOnlyFileIsEmptied` | `LicenseHeader.ProcessFileCorrected`, `RewriteProperties.CorrectedAgreesWithProcessFile` |
