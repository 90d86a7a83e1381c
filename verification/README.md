# MetaPeek filename anomalies in Dafny

MetaPeek is an Assemblyline service that looks for anomalies in a submitted
file's metadata without opening the file itself. This project models its
filename-anomaly check: five heuristics over the base name of the file.

1. **Too many whitespaces.** The name is flooded with spaces and filler
   characters, and the extension is launchable.
2. **Double file extension.** A short bait extension such as `.pdf` sits in
   front of a short launchable one such as `.exe`.
3. **Hidden launchable file extension.** The name carries a Unicode
   bidirectional control, and the extension a reader sees is not the
   extension the file really has.
4. **Empty filename.** Nothing but whitespace precedes a launchable
   extension.
5. **Phishing character in an HTML filename.** An HTML file whose name
   holds one of a fixed set of glyphs.

The model also covers the report that collects their verdicts.

Each rule is a pure Dafny function over `string` (`seq<char>`, one `char` per
Unicode scalar value). Lemmas state what each rule
promises, its edge cases and how the rules combine. The modules follow the
program:

- `PyStr` (`pystr.dfy`) models the Python string operations the rules use:
  - `str.strip` over Python's 29 whitespace code points;
  - `str.upper`;
  - `s[:n]` slicing, including negative `n`;
  - `str.rfind`;
  - single-character `str.replace`.
- `PyPath` (`pypath.dfy`) models `posixpath.splitext`, including the rule
  that the leading dots of a name do not start an extension, and
  `posixpath.basename`.
- `Bidi` (`bidi.dfy`) holds:
  - the seven controls of `BIDIR_CTRLS`;
  - their removal;
  - the rewrite of the four directional isolates before rendering.
- `Extensions` (`extensions.dfy`) holds the launchable list, the
  double-extension list derived from it, the bait list with its reversed
  forms, and the phishing glyphs.
- `Rules` (`rules.dfy`) holds the five rules and the shared extension
  split-and-clean step.
- `Anomalies` (`anomalies.dfy`) holds the top-level check and its report:
  - the heuristic numbers, titles and tags;
  - the findings in heuristic order;
  - the name as extracted and without controls;
  - the service's regression test on a name with explicit isolates.

The bidirectional renderer `get_display` is a foreign library. It is a
parameter `display: string -> string` about which nothing is assumed.
Wherever a property depends on it, the property says what the renderer
must return.

### Where the code and its comments differ

The model follows the code.

- The empty-filename docstring gives `.exe` as an example. `splitext`
  gives `.exe` no extension, so that name is never reported
  (`Rules.EmptyFilenameNeedsLeadingSpace`). Only names with leading
  whitespace, such as `"   .exe"`, are.
- The double-extension rule cuts the *cleaned* last extension's length off
  the raw name. A trailing space is cleaned off the extension but stays on
  the name. The cut then stops one character short of the dot, and
  `name.pdf.exe ` (with a trailing space) is not reported
  (`Rules.TrailingSpaceHidesDoubleExtension`).
- The bait list has `EXCEL` and, reversed, `LECXE`. Both are five letters
  long, but the length test allows at most four, so neither can ever match
  (`Rules.BaitAtMostFourLetters`).
- The flooding docstring lists `_` as a filler. The regular expression does
  not include it (`Rules.UnderscoreIsNotFiller`).
- The four isolates are rewritten before rendering. They are not in
  `BIDIR_CTRLS`, so a name whose only controls are isolates never reaches
  the rewrite (`Rules.IsolatesAloneNeverHide`).

## Model

| member | source | states |
|---|---|---|
| PyStr.StripSpec | metapeek.py:143 | `strip()` removes exactly the leading and trailing whitespace: the result is a trimmed infix, and all around it is whitespace |
| PyStr.StripEmpty | metapeek.py:143 | stripping empties a string exactly when it is all whitespace |
| PyStr.SliceTo | metapeek.py:149 | Python's `s[:n]` is a prefix of `s`: of length `n` when `0 <= n <= len(s)`, `len(s)+n` for a negative `n`, empty below `-len(s)`, and all of `s` above `len(s)` |
| PyStr.UpperChar | metapeek.py:147 | the model's upper casing maps a lower-case ASCII letter to its capital and leaves every other ASCII character alone; in the model's table, an expansion to more than one character starts with F or S |
| PyStr.UpperGrowth | metapeek.py:147 | the model's `upper()` lengthens a string only through expansions that contain an F or an S |
| PyPath.SplitExtSpec | metapeek.py:142 | `splitext` puts the path back together, and yields an extension exactly when some dot in the last component follows a non-dot character, in which case it starts at the last dot |
| PyPath.ExtensionAtUnique | metapeek.py:142 | that extension position is unique, so it determines the split |
| PyPath.SplitExtPrepend | metapeek.py:142 | text put in front of a name does not change an extension it already has |
| PyPath.BasenameSpec | metapeek.py:226 | the base name is the suffix after the last `/`, holds no `/`, and is preceded by `/` whenever it is not the whole path |
| Bidi.HasBidirCtrlAny | metapeek.py:208 | the presence test holds exactly when one of the seven controls of `BIDIR_CTRLS` occurs in the name |
| Bidi.RemoveBidirControlsSpec | metapeek.py:249 | removal leaves no control behind, changes nothing in a control-free text, and shortens a text exactly when it has a control |
| Bidi.RemoveBidirControlsMembers | metapeek.py:249 | removal keeps exactly the characters that are not controls |
| Bidi.RemoveBidirControlsIdempotent | metapeek.py:249 | removing controls twice is the same as removing them once |
| Bidi.RewriteIsolatesSpec | metapeek.py:211-216 | after the four replacements no isolate is left |
| Bidi.RewriteIsolatesAppend | metapeek.py:211-216 | the replacements act on each part of a concatenation separately |
| Bidi.RewriteIsolatesChar | metapeek.py:211-216 | on a single character the replacements turn LRI into LRE, RLI into RLE, PDI into PDF, delete FSI, and keep every other character |
| Bidi.RewriteIsolatesNoIsolates | metapeek.py:211-216 | a name without isolates is left unchanged |
| Extensions.RemoveFirstSplit | metapeek.py:34-35 | `list.remove(x)` deletes the first occurrence of `x` and keeps everything else in order |
| Extensions.LaunchableDoubleExtValue | metapeek.py:33-35 | the double-extension list is the launchable list with LNK and then URL removed |
| Extensions.ReverseAllChars | metapeek.py:59 | each appended bait form has the length of its original, and its k-th character is the original's k-th character from the end |
| Extensions.LongBaitNames | metapeek.py:38-59 | the only bait names longer than four letters have five letters, none of them F or S |
| Rules.CleanExtShape | metapeek.py:143 | stripping and control removal keep an extension's shape (a dot, then no dot or `/`) and empty only the empty extension |
| Rules.FileExtShape | metapeek.py:142-143 | the cleaned extension is empty or a dot followed by neither dots nor separators, and it is empty exactly when `splitext` finds none |
| Rules.CheckDoubleExtension | metapeek.py:132-155 | the rule always returns the cleaned last extension, and reports only when that extension is 2 to 4 characters after its dot and in the list without LNK and URL |
| Rules.DoubleExtensionSound | metapeek.py:145-153 | a report means the last extension is launchable and not a shortcut, and the name with it cut off ends in a bait extension of at most four letters |
| Rules.BaitAtMostFourLetters | metapeek.py:151 | any second extension passing the bait test matches a bait name of at most four letters, so EXCEL and LECXE never match |
| Rules.DoubleExtensionFires | metapeek.py:132-155 | `stem.bait.launchable` with letter extensions of 2 to 4 characters is reported, with `.launchable` returned |
| Rules.PdfExeCaught | metapeek.py:132-155 | `invoice.pdf.exe`, and any plain stem followed by `.pdf.exe`, is reported with `.exe` |
| Rules.SingleExtensionIsNotDouble | metapeek.py:145-155 | a name with one letter extension is never a double extension |
| Rules.ReportDocx | metapeek.py:145-155 | `report.docx` is not reported |
| Rules.TrailingSpaceHidesDoubleExtension | metapeek.py:142-150 | because the cut uses the cleaned length, `stem.bait.launchable` followed by a space is not reported |
| Rules.CheckEmptyFilename | metapeek.py:164-172 | an empty extension is never reported |
| Rules.EmptyFilenameSpec | metapeek.py:164-172 | the rule holds exactly when the extension is non-empty, what precedes it is empty or whitespace, and its body is in the full launchable list |
| Rules.EmptyFilenameOnNameSound | metapeek.py:142-172 | on the extension the first rule hands it, a report means `splitext` left a non-empty, all-whitespace stem in front of a launchable extension |
| Rules.EmptyFilenameOnNameComplete | metapeek.py:142-172 | conversely, such a name is always reported |
| Rules.EmptyFilenameNeedsLeadingSpace | metapeek.py:157-172 | a name that does not start with whitespace, such as `.exe` or `readme.exe`, is never reported |
| Rules.EmptyFilenameFires | metapeek.py:157-172 | whitespace followed by a dot and a launchable letter extension is reported |
| Rules.CountFillersSpec | metapeek.py:181 | the filler count is zero exactly when no character is a filler, and the full length exactly when every character is one |
| Rules.CountFillersAppend | metapeek.py:181 | the filler count of a concatenation is the sum of the parts' counts |
| Rules.UnderscoreIsNotFiller | metapeek.py:181 | an underscore does not change the count |
| Rules.CheckFilenameWs | metapeek.py:181-189 | a report means at least ten fillers, more fillers than half the name's length, and a launchable extension; an empty extension is never reported |
| Rules.FloodedVerdict | metapeek.py:184-187 | once more than half the name and at least ten characters are fillers, the verdict is exactly the launchability of the extension |
| Rules.FillerFloodFires | metapeek.py:181-189 | ten or more fillers in front of a shorter letter extension are reported exactly when the extension is launchable |
| Rules.FillerPrefixKeepsFlood | metapeek.py:181-189 | putting more fillers in front of a reported name keeps it reported |
| Rules.DisplayedExtShape | metapeek.py:219-220 | the displayed extension is empty or a dot followed by no other dot |
| Rules.CheckUnicodeBidirCtrls | metapeek.py:205-222 | a name without one of the seven controls is never reported, and a report means the displayed extension has 3 to 5 characters and differs from the real one |
| Rules.IsolatesAloneNeverHide | metapeek.py:208-209 | a name whose only controls are isolates is never reported, whatever the renderer does |
| Rules.HidingNeedsReordering | metapeek.py:211-222 | if the renderer shows an isolate-free name as stored and its extension has no whitespace padding, the name is not reported |
| Rules.RtloHidesExtension | metapeek.py:191-222 | the right-to-left override attack `stem RLO reversed(bait).actual`, which a renderer shows as `stem reversed(actual).bait` because the override is never closed, is reported, and its real extension is `.actual` |
| Rules.HasPhishingCharHtml | metapeek.py:232 | the phishing rule holds exactly for an HTML file whose name contains one of the listed glyphs |
| Anomalies.Evaluate | metapeek.py:228-232 | phishing needs an HTML type, the flooding and empty-name rules need a non-empty extension, hiding needs a control, and a double extension needs a launchable non-shortcut extension |
| Anomalies.Heuristic.Tags | metapeek.py:254-276 | every section carries the anomaly tag first, and a behaviour tag second unless it is the phishing section |
| Anomalies.IdsDistinct | metapeek.py:254-276 | different heuristics have different numbers |
| Anomalies.TitlesDistinct | metapeek.py:254-276 | different heuristics raise sections with different titles |
| Anomalies.AnomalyTagsDistinct | metapeek.py:254-276 | different heuristics tag different anomaly values |
| Anomalies.Findings | metapeek.py:254-276 | each heuristic appears exactly when its rule fired, at most once, in heuristic-number order, and the list is empty exactly when no rule fired |
| Anomalies.FindingsFired | metapeek.py:254-276 | membership in the findings is the firing of the corresponding rule |
| Anomalies.ReportOn | metapeek.py:236-276 | there is no report exactly when no rule fired; otherwise it carries the name, the name without controls, and one finding per rule that fired, in order |
| Anomalies.CheckFileNameAnomalies | metapeek.py:224-277 | the same, for the rules run on the base name of the submitted path |
| Anomalies.ActualNameClean | metapeek.py:246-252 | the reported actual name has no control, and equals the extracted name exactly when that name has none |
| Anomalies.PhishingOnlyForHtml | metapeek.py:274-276 | the phishing finding never appears for a non-HTML file |
| Anomalies.DirectoryIgnored | metapeek.py:226 | the report on `dir/name` is the report on `name` |
| Anomalies.NotLaunchableOnlyHiding | metapeek.py:228-277 | for a non-HTML file whose extension is not launchable, the only possible finding is extension hiding |
| Anomalies.IsolatedPdfExt | tests/test_bidi.py:9 | the test's name (mark, FSI, mark, an Arabic word, PDI, `.pdf`) has extension `.pdf` and no directory part |
| Anomalies.IsolatedPdfActualName | tests/test_bidi.py:9 | control removal drops the test name's two marks and keeps its isolates |
| Anomalies.IsolatedPdfNameReport | tests/test_bidi.py:8-16 | the check is defined on the test's name for every renderer; as a PDF the name can only be reported for extension hiding, with the marks removed from the actual name |
| Anomalies.ExplicitIsolatesTestName | tests/test_bidi.py:8-16 | the test's own word is an instance |

## Left out

- Host-framework plumbing is left out: `ServiceBase`, `execute`, and the
  construction of `Result`, `ResultSection`, `Heuristic` and tags. A report
  is a datatype that holds the extracted name, the actual name and the
  ordered findings. Each finding's title and tags are plain data on the
  `Heuristic` datatype.
- `get_display` (the `bidi` package's renderer) is foreign code. It is the
  parameter `display`, and nothing is assumed about it.
- `remove_bidir_unicode_controls` is library code not present here. It is
  modelled as dropping every character of `BIDIR_CTRLS` and keeping the
  rest in order. That is an assumption about the library.
- `wrap_bidir_unicode_string` only decorates the reported line, so it is
  left out.
- The `isinstance(filename, str)` guard of the hiding rule is left out:
  every name is a string in the model.
- Unicode tables are approximated:
  - `str.isspace` and `str.strip` use the 29 code points Python treats as
    whitespace.
  - `str.upper` maps ASCII letters and the ten non-ASCII characters whose
    upper case is all ASCII (such as `ß` to `SS` and `ﬁ` to `FI`).
  - Every other character is left unchanged by `upper`. That is exact for
    membership in the all-ASCII extension lists, which is the only use.
- Lone surrogates (U+D800 to U+DFFF) have no Dafny `char`, so a name that
  holds one, as `os.fsdecode` produces for undecodable bytes, cannot be
  stated as input. Every rule treats such a character as a plain one: it
  is not whitespace, upper casing and stripping keep it, and it is not a
  control, an isolate, a filler, a dot, a separator or a phishing glyph
  (every glyph lies outside the surrogate range). U+E000 behaves the same
  way (`Rules.PrivateUseIsPlain`), so a name holding surrogates gets the
  same verdicts as the name with each surrogate replaced by U+E000, which
  the model does cover.
- The regular expression of the flooding rule is modelled as its single
  character class, counted with `re.findall`'s non-overlapping matches.
- `os.path.splitext` is the POSIX variant (`/` is the only separator), as
  on the Linux hosts the service runs on.
- PyStr.UpperChar and PyStr.UpperGrowth: the facts about expansions hold
  for the model's ASCII-plus-ten table only. Python has further characters
  whose upper case is longer than one character and starts with neither F
  nor S (such as `ŉ` becoming `ʼN`). Such results always hold a non-ASCII
  character, so they cannot match any all-ASCII list entry, and
  Rules.BaitAtMostFourLetters holds for Python's full table as well.
- Rules.CheckUnicodeBidirCtrls: its contract gives the guard and what a
  report implies. That the rule fires on a concrete attack is stated
  separately, by Rules.RtloHidesExtension, and only for a renderer that
  lays out the unclosed override by reversing the text after it, as the
  Unicode bidirectional algorithm does.
- Anomalies.IsolatedPdfNameReport: the test only checks that the call
  completes. Whether it reports extension hiding depends on the renderer,
  which is not modelled, so the lemma bounds what can be reported rather
  than deciding it.
