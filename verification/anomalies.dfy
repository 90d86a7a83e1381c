/** The service's filename-anomaly report: the five rules applied to the
    base name of a submitted file, and the result sections they raise. */
module Anomalies {
  import opened PyStr
  import opened PyPath
  import opened Bidi
  import opened Extensions
  import opened Rules

  /** The tag types of a section: the anomaly it reports and the behaviour
      it shows. */
  const AnomalyTag: string := "file.name.anomaly"
  const BehaviorTag: string := "file.behavior"

  /** The five heuristics, in the order the report lists their sections. */
  datatype Heuristic =
    | TooManyWhitespaces
    | DoubleFileExtension
    | UnicodeExtensionHiding
    | EmptyFilename
    | PhishingCharHtml
  {
    /** The service's heuristic number. */
    function Id(): (n: int)
      ensures 1 <= n <= 5
    {
      match this
      case TooManyWhitespaces => 1
      case DoubleFileExtension => 2
      case UnicodeExtensionHiding => 3
      case EmptyFilename => 4
      case PhishingCharHtml => 5
    }

    /** Title of the result section. */
    function Title(): string {
      match this
      case TooManyWhitespaces => "Too many whitespaces"
      case DoubleFileExtension => "Double file extension"
      case UnicodeExtensionHiding => "Hidden launchable file extension"
      case EmptyFilename => "Empty Filename"
      case PhishingCharHtml => "Phishing Character in HTML filename"
    }

    /** The tags the section carries, as (tag type, value) pairs: first the
        anomaly tag, then a behaviour tag, which the phishing section
        lacks. */
    function Tags(): (t: seq<(string, string)>)
      ensures 1 <= |t| <= 2 && t[0].0 == AnomalyTag
      ensures |t| == 2 <==> !PhishingCharHtml?
      ensures |t| == 2 ==> t[1].0 == BehaviorTag
    {
      match this
      case TooManyWhitespaces =>
        [(AnomalyTag, "TOO_MANY_WHITESPACES"),
         (BehaviorTag, "File name has too many whitespaces")]
      case DoubleFileExtension =>
        [(AnomalyTag, "DOUBLE_FILE_EXTENSION"),
         (BehaviorTag, "Double file extension")]
      case UnicodeExtensionHiding =>
        [(AnomalyTag, "UNICODE_EXTENSION_HIDING"),
         (BehaviorTag, "Real file extension hidden using unicode trickery")]
      case EmptyFilename =>
        [(AnomalyTag, "FILENAME_EMPTY_OR_ALL_SPACES"),
         (BehaviorTag, "File name is empty or all whitespaces")]
      case PhishingCharHtml =>
        [(AnomalyTag, "PHISHING_CHAR_HTML")]
    }
  }

  /** Different heuristics have different numbers. */
  lemma IdsDistinct(h1: Heuristic, h2: Heuristic)
    requires h1 != h2
    ensures h1.Id() != h2.Id()
  {
  }

  /** Different heuristics raise sections with different titles. */
  lemma TitlesDistinct(h1: Heuristic, h2: Heuristic)
    requires h1 != h2
    ensures h1.Title() != h2.Title()
  {
  }

  /** Different heuristics tag different anomalies, so a report tells its
      sections apart. */
  lemma AnomalyTagsDistinct(h1: Heuristic, h2: Heuristic)
    requires h1 != h2
    ensures h1.Tags()[0].1 != h2.Tags()[0].1
  {
  }

  /** The verdicts of the five rules on one name. */
  datatype Verdicts = Verdicts(ws: bool, double: bool, bidi: bool, empty: bool, phishing: bool)
  {
    predicate Any() {
      ws || double || bidi || empty || phishing
    }
  }

  /** The verdict of the rule behind heuristic `h`. */
  predicate Fired(h: Heuristic, v: Verdicts) {
    match h
    case TooManyWhitespaces => v.ws
    case DoubleFileExtension => v.double
    case UnicodeExtensionHiding => v.bidi
    case EmptyFilename => v.empty
    case PhishingCharHtml => v.phishing
  }

  /** What the service reports about a file name: nothing, or a section
      tagged with the name as extracted, a line giving the name without its
      controls, and one sub-section per heuristic that fired. */
  datatype Report =
    | NoAnomalies
    | Reported(extractedName: string, actualName: string, findings: seq<Heuristic>)

  /** Runs the five rules on a base name. The extension the double-extension
      rule extracts is handed to the empty-name, flooding and hiding rules. */
  function Evaluate(filename: string, fileType: string, display: string -> string): (v: Verdicts)
    ensures v.phishing ==> fileType == HtmlType
    ensures v.ws || v.empty ==> FileExt(filename) != []
    ensures v.bidi ==> HasBidirCtrl(filename)
    ensures v.double ==> ExtIn(FileExt(filename), LaunchableDoubleExt)
  {
    var (isDoubleExt, fExt) := CheckDoubleExtension(filename);
    Verdicts(
      CheckFilenameWs(filename, fExt),
      isDoubleExt,
      CheckUnicodeBidirCtrls(filename, fExt, display),
      CheckEmptyFilename(filename, fExt),
      HasPhishingCharHtml(filename, fileType))
  }

  /** Heuristic numbers increase along `fs`. */
  predicate ById(fs: seq<Heuristic>) {
    forall i, j :: 0 <= i < j < |fs| ==> fs[i].Id() < fs[j].Id()
  }

  /** Puts `h` in front of the later findings when `b` holds. */
  function AddIf(b: bool, h: Heuristic, rest: seq<Heuristic>): (fs: seq<Heuristic>)
    requires ById(rest) && forall x :: x in rest ==> h.Id() < x.Id()
    ensures ById(fs)
    ensures forall x :: x in fs <==> (b && x == h) || x in rest
    ensures forall x :: x in fs ==> h.Id() <= x.Id()
    ensures fs == [] <==> !b && rest == []
  {
    if b then [h] + rest else rest
  }

  /** The heuristics that fired, each once, in heuristic-number order. */
  function Findings(v: Verdicts): (fs: seq<Heuristic>)
    ensures TooManyWhitespaces in fs <==> v.ws
    ensures DoubleFileExtension in fs <==> v.double
    ensures UnicodeExtensionHiding in fs <==> v.bidi
    ensures EmptyFilename in fs <==> v.empty
    ensures PhishingCharHtml in fs <==> v.phishing
    ensures ById(fs)
    ensures fs == [] <==> !v.Any()
  {
    var f5 := AddIf(v.phishing, PhishingCharHtml, []);
    var f4 := AddIf(v.empty, EmptyFilename, f5);
    var f3 := AddIf(v.bidi, UnicodeExtensionHiding, f4);
    var f2 := AddIf(v.double, DoubleFileExtension, f3);
    AddIf(v.ws, TooManyWhitespaces, f2)
  }

  /** A heuristic is among the findings exactly when its rule fired. */
  lemma FindingsFired(v: Verdicts)
    ensures forall h :: h in Findings(v) <==> Fired(h, v)
  {
    forall h ensures h in Findings(v) <==> Fired(h, v) {
      if h.TooManyWhitespaces? {
      } else if h.DoubleFileExtension? {
      } else if h.UnicodeExtensionHiding? {
      } else if h.EmptyFilename? {
      }
    }
  }

  /** No heuristic fires when no verdict is positive. */
  lemma NoneFired(v: Verdicts)
    requires !v.Any()
    ensures forall h :: !Fired(h, v)
  {
    forall h ensures !Fired(h, v) {
      if h.TooManyWhitespaces? || h.DoubleFileExtension? || h.UnicodeExtensionHiding? || h.EmptyFilename? {
      }
    }
  }

  /** The report on a base name given the rules' verdicts. */
  function ReportOn(filename: string, v: Verdicts): (r: Report)
    ensures r.NoAnomalies? <==> forall h :: !Fired(h, v)
    ensures r.Reported? ==>
      && r.extractedName == filename
      && r.actualName == RemoveBidirControls(filename)
      && (forall h :: h in r.findings <==> Fired(h, v))
      && ById(r.findings)
  {
    if v.Any() then
      var fs := Findings(v);
      FindingsFired(v);
      assert Fired(fs[0], v);
      Reported(filename, RemoveBidirControls(filename), fs)
    else
      NoneFired(v);
      NoAnomalies
  }

  /** The filename-anomaly check on a submitted path. Only the part after the
      last `/` is looked at; `display` stands for the bidirectional
      renderer. */
  function CheckFileNameAnomalies(fileName: string, fileType: string, display: string -> string): (r: Report)
    ensures var v := Evaluate(Basename(fileName), fileType, display);
      && (r.NoAnomalies? <==> forall h :: !Fired(h, v))
      && (r.Reported? ==>
            && r.extractedName == Basename(fileName)
            && r.actualName == RemoveBidirControls(Basename(fileName))
            && (forall h :: h in r.findings <==> Fired(h, v))
            && ById(r.findings))
  {
    var filename := Basename(fileName);
    ReportOn(filename, Evaluate(filename, fileType, display))
  }

  /** The reported actual name carries no control, and it is the extracted
      name itself exactly when that name has none. */
  lemma ActualNameClean(fileName: string, fileType: string, display: string -> string)
    ensures var r := CheckFileNameAnomalies(fileName, fileType, display);
      r.Reported? ==>
        && !HasBidirCtrl(r.actualName)
        && (r.actualName == r.extractedName <==> !HasBidirCtrl(r.extractedName))
  {
    var name := Basename(fileName);
    RemoveBidirControlsSpec(name);
  }

  /** The phishing section only appears for HTML files. */
  lemma PhishingOnlyForHtml(fileName: string, fileType: string, display: string -> string)
    requires fileType != HtmlType
    ensures var r := CheckFileNameAnomalies(fileName, fileType, display);
      r.Reported? ==> PhishingCharHtml !in r.findings
  {
  }

  /** Directories in the submitted path make no difference: the report on
      `dir/name` is the report on `name`. */
  lemma DirectoryIgnored(dir: string, name: string, fileType: string, display: string -> string)
    requires forall k :: 0 <= k < |name| ==> name[k] != '/'
    ensures CheckFileNameAnomalies(dir + "/" + name, fileType, display)
         == CheckFileNameAnomalies(name, fileType, display)
  {
    var p := dir + "/" + name;
    BasenameOfName(name);
    BasenameSpec(p);
    var b := Basename(p);
    assert p[|p| - |name| - 1] == '/';
    assert b == p[|p| - |name|..];
    assert p[|p| - |name|..] == name;
  }

  /** When the extension is not launchable and the file is not HTML, the
      only section that can be raised is extension hiding. */
  lemma NotLaunchableOnlyHiding(fileName: string, fileType: string, display: string -> string)
    requires fileType != HtmlType
    requires Upper(Tail(FileExt(Basename(fileName)))) !in Launchable
    ensures var r := CheckFileNameAnomalies(fileName, fileType, display);
      r.Reported? ==> r.findings == [UnicodeExtensionHiding]
  {
    var name := Basename(fileName);
    var v := Evaluate(name, fileType, display);
    assert !v.double by {
      if v.double {
        DoubleExtListed(Upper(Tail(FileExt(name))));
      }
    }
    assert Findings(v) == (if v.bidi then [UnicodeExtensionHiding] else []);
  }

  /** `.pdf` is in neither launchable list. */
  lemma PdfNotLaunchable()
    ensures Upper(Tail(".pdf")) !in Launchable
  {
    assert Tail(".pdf") == "pdf";
    assert Upper("pdf") == "PDF";
  }

  /** Letters of the Arabic block, as in the word of the regression test. */
  predicate ArabicLetters(w: string) {
    forall k :: 0 <= k < |w| ==> '\U{0621}' <= w[k] <= '\U{064A}'
  }

  /** The name of the explicit-isolates regression test, for any Arabic
      word: a left-to-right mark, a first-strong isolate, a right-to-left
      mark, the word, a pop-isolate, then `.pdf`. */
  function IsolatedPdfName(word: string): string {
    [LRM, FSI, RLM] + word + [PDI] + ".pdf"
  }

  /** The stored extension of the regression-test name is `.pdf`, and the
      name has no directory part. */
  lemma IsolatedPdfExt(word: string)
    requires ArabicLetters(word)
    ensures FileExt(IsolatedPdfName(word)) == ".pdf"
    ensures Basename(IsolatedPdfName(word)) == IsolatedPdfName(word)
  {
    var stem := [LRM, FSI, RLM] + word + [PDI];
    IsolatedStemPlain(word, stem);
    PdfOfPlainStem(stem, IsolatedPdfName(word));
  }

  /** The marks, isolates and Arabic letters in front of `.pdf` form a plain
      stem. */
  lemma IsolatedStemPlain(word: string, stem: string)
    requires ArabicLetters(word) && stem == [LRM, FSI, RLM] + word + [PDI]
    ensures PlainStem(stem)
  {
    assert stem[0] == LRM;
    forall k | 0 <= k < |stem| ensures stem[k] != '/' {
      if 3 <= k < 3 + |word| { assert stem[k] == word[k - 3]; }
    }
  }

  /** A plain stem followed by `.pdf` has extension `.pdf` and no directory
      part. */
  lemma PdfOfPlainStem(stem: string, name: string)
    requires PlainStem(stem) && name == stem + ".pdf"
    ensures FileExt(name) == ".pdf" && Basename(name) == name
  {
    var body := "pdf";
    assert Letters(body);
    assert ".pdf" == "." + body;
    LetterExtOfPlainStem(stem, body, name);
  }

  /** A plain stem followed by a dot and letters has that extension and no
      directory part. */
  lemma LetterExtOfPlainStem(stem: string, body: string, name: string)
    requires PlainStem(stem) && Letters(body) && name == stem + ("." + body)
    ensures FileExt(name) == "." + body && Basename(name) == name
  {
    assert name == stem + "." + body;
    FileExtOfLetters(stem, body);
    DottedLetters(body);
    PlainStemAppend(stem, "." + body);
    BasenameOfName(name);
  }

  /** Removing the controls from the regression-test name drops its two
      marks and keeps its isolates. */
  lemma IsolatedPdfActualName(word: string)
    requires ArabicLetters(word)
    ensures RemoveBidirControls(IsolatedPdfName(word)) == [FSI] + word + [PDI] + ".pdf"
  {
    var rest := word + [PDI] + ".pdf";
    assert IsolatedPdfName(word) == [LRM, FSI, RLM] + rest;
    RemoveBidirControlsAppend([LRM, FSI, RLM], rest);
    MarksRemoved();
    assert !HasBidirCtrl(rest) by {
      forall k | 0 <= k < |rest| ensures !IsBidirCtrl(rest[k]) {
        if k < |word| { assert rest[k] == word[k]; }
      }
    }
    RemoveBidirControlsSpec(rest);
    assert [FSI] + rest == [FSI] + word + [PDI] + ".pdf";
  }

  /** Of the test name's opening mark, isolate and mark, only the isolate
      survives control removal. */
  lemma MarksRemoved()
    ensures RemoveBidirControls([LRM, FSI, RLM]) == [FSI]
  {
    assert [LRM, FSI, RLM] == [LRM] + ([FSI] + [RLM]);
    RemoveBidirControlsAppend([LRM], [FSI] + [RLM]);
    RemoveBidirControlsAppend([FSI], [RLM]);
  }

  /** The regression-test name, sent as a PDF, can only be reported for
      extension hiding, and only if the renderer makes a different
      extension appear; the reported actual name keeps the isolates and
      drops the marks. */
  lemma IsolatedPdfNameReport(word: string, display: string -> string)
    requires ArabicLetters(word)
    ensures var r := CheckFileNameAnomalies(IsolatedPdfName(word), "document/pdf", display);
      r.Reported? ==>
        && r.findings == [UnicodeExtensionHiding]
        && r.actualName == [FSI] + word + [PDI] + ".pdf"
  {
    IsolatedPdfExt(word);
    PdfNotLaunchable();
    NotLaunchableOnlyHiding(IsolatedPdfName(word), "document/pdf", display);
    IsolatedPdfActualName(word);
  }

  /** The word of the regression test. */
  const TestWord: string := "\U{0648}\U{0627}\U{062A}\U{0633}\U{0627}\U{0628}"

  /** The regression test's own name is an instance. */
  lemma ExplicitIsolatesTestName(display: string -> string)
    ensures var r := CheckFileNameAnomalies(IsolatedPdfName(TestWord), "document/pdf", display);
      r.Reported? ==> r.findings == [UnicodeExtensionHiding]
  {
    IsolatedPdfNameReport(TestWord, display);
  }
}
