/** The five filename-anomaly rules of the MetaPeek service. Each is a
    total function of the file name (and, for some, of the extension the
    double-extension rule extracted, the file type, or the bidirectional
    renderer). */
module Rules {
  import opened PyStr
  import opened PyPath
  import opened Bidi
  import opened Extensions

  /** Shortest and longest extension the double-extension rule cares
      about, not counting the dot. */
  const ExtMin: int := 2
  const ExtMax: int := 4

  /** The file type label for which the phishing-glyph rule applies. */
  const HtmlType: string := "code/html"

  /** ASCII letters, which upper casing, stripping and control removal
      treat plainly. */
  predicate Letters(s: string) {
    forall k :: 0 <= k < |s| ==> 'A' <= s[k] <= 'Z' || 'a' <= s[k] <= 'z'
  }

  /** A file stem `splitext` accepts in front of a dot: no separator, and
      not made of dots only. */
  predicate PlainStem(s: string) {
    && (forall k :: 0 <= k < |s| ==> s[k] != '/')
    && exists k :: 0 <= k < |s| && s[k] != '.'
  }

  /** Empty, or a dot followed by characters that are neither dots nor
      separators: the form of every extension `splitext` returns. */
  predicate ExtShape(e: string) {
    e == [] || (e[0] == '.' && forall k :: 1 <= k < |e| ==> e[k] != '.' && e[k] != '/')
  }

  /** A dot followed by letters is a well-formed extension that needs no
      cleaning, and Python's `e[1:]` gives the letters back. */
  lemma DottedLetters(body: string)
    requires Letters(body)
    ensures ExtShape("." + body)
    ensures forall k :: 0 <= k < |"." + body| ==> ("." + body)[k] != '/'
    ensures Tail("." + body) == body
    ensures Trimmed("." + body)
    ensures !HasBidirCtrl("." + body)
  {
    var e := "." + body;
    forall k | 1 <= k < |e| ensures e[k] == body[k - 1] {
    }
    if body != [] {
      assert e[|e| - 1] == body[|body| - 1];
    }
  }

  // ---------------------------------------------------------------------
  // Extension split and clean
  // ---------------------------------------------------------------------

  /** An extension after `strip()` and removal of bidirectional controls. */
  function CleanExt(e: string): (c: string)
    ensures |c| <= |e|
  {
    RemoveBidirControls(Strip(e))
  }

  /** Cleaning keeps the shape of an extension, and empties only the empty
      extension. */
  lemma CleanExtShape(raw: string)
    requires ExtShape(raw)
    ensures ExtShape(CleanExt(raw))
    ensures CleanExt(raw) == [] <==> raw == []
  {
    if raw != [] {
      StripFront(raw);
      var st := Strip(raw);
      assert st == [st[0]] + st[1..];
      RemoveBidirControlsAppend([st[0]], st[1..]);
      var tail := RemoveBidirControls(st[1..]);
      var e := CleanExt(raw);
      assert e == ['.'] + tail;
      forall k | 1 <= k < |e| ensures e[k] != '.' && e[k] != '/' {
        assert e[k] == tail[k - 1];
        RemoveBidirControlsMembers(st[1..], e[k]);
        var j :| 0 <= j < |st[1..]| && st[1..][j] == e[k];
        assert st[1..][j] == raw[j + 1];
      }
    }
  }

  /** The extension of `name` as the rules use it: split off, then cleaned. */
  function FileExt(name: string): (e: string)
    ensures |e| <= |name|
  {
    CleanExt(SplitExt(name).1)
  }

  /** The cleaned extension keeps the shape of a split-off extension, and it
      is empty exactly when `splitext` finds none. */
  lemma FileExtShape(name: string)
    ensures ExtShape(FileExt(name))
    ensures FileExt(name) == [] <==> SplitExt(name).1 == []
  {
    ExtensionShape(name);
    CleanExtShape(SplitExt(name).1);
  }

  /** A name made of a plain stem, a dot and a plain body splits at that dot. */
  lemma SplitExtOfStem(stem: string, body: string)
    requires PlainStem(stem)
    requires forall k :: 0 <= k < |body| ==> body[k] != '.' && body[k] != '/'
    ensures SplitExt(stem + "." + body) == (stem, "." + body)
  {
    var p := stem + "." + body;
    assert ExtensionAt(p, |stem|) by {
      forall k | |stem| < k < |p| ensures p[k] != '.' && p[k] != '/' {
        assert p[k] == body[k - |stem| - 1];
      }
      var k :| 0 <= k < |stem| && stem[k] != '.';
      assert p[k] == stem[k];
    }
    ExtensionAtUnique(p, |stem|);
    assert p[..|stem|] == stem;
    assert p[|stem|..] == "." + body;
  }

  /** Letters need no cleaning. */
  lemma CleanLettersExt(body: string)
    requires Letters(body)
    ensures CleanExt("." + body) == "." + body
  {
    DottedLetters(body);
    StripTrimmed("." + body);
    RemoveBidirControlsSpec("." + body);
  }

  /** The extension of `stem.body` when `body` is made of letters. */
  lemma FileExtOfLetters(stem: string, body: string)
    requires PlainStem(stem) && Letters(body)
    ensures FileExt(stem + "." + body) == "." + body
  {
    SplitExtOfStem(stem, body);
    CleanLettersExt(body);
  }

  /** A name without a dot has no extension. */
  lemma FileExtNoDot(s: string)
    requires forall k :: 0 <= k < |s| ==> s[k] != '.'
    ensures FileExt(s) == []
  {
    SplitExtSpec(s);
  }

  /** Appending characters other than `/` to a plain stem keeps it plain. */
  lemma PlainStemAppend(stem: string, tail: string)
    requires PlainStem(stem)
    requires forall k :: 0 <= k < |tail| ==> tail[k] != '/'
    ensures PlainStem(stem + tail)
  {
    var s := stem + tail;
    var k :| 0 <= k < |stem| && stem[k] != '.';
    assert s[k] == stem[k];
    forall j | 0 <= j < |s| ensures s[j] != '/' {
      if j < |stem| { assert s[j] == stem[j]; } else { assert s[j] == tail[j - |stem|]; }
    }
  }

  /** The test both halves of the double-extension rule apply: after its
      dot the extension has from ExtMin to ExtMax characters, and
      those characters, upper-cased, are one of `names`. */
  predicate ExtIn(e: string, names: seq<string>) {
    ExtMin < |e| <= ExtMax + 1 && Upper(Tail(e)) in names
  }

  // ---------------------------------------------------------------------
  // Double extension (heuristic 2)
  // ---------------------------------------------------------------------

  /** Two short extensions back to back, the last launchable and the one
      before it a bait. Returns the verdict and the cleaned last extension,
      which the other rules reuse. The second extension is taken from the
      name with as many characters cut off its end as the CLEANED last
      extension has. */
  function CheckDoubleExtension(filename: string): (r: (bool, string))
    ensures r.1 == FileExt(filename)
    ensures r.0 ==> ExtIn(r.1, LaunchableDoubleExt)
  {
    var e1 := FileExt(filename);
    if ExtIn(e1, LaunchableDoubleExt) then
      var e2 := FileExt(SliceTo(filename, |filename| - |e1|));
      (ExtIn(e2, Bait), e1)
    else
      (false, e1)
  }

  /** Members of the double-extension list are launchable and are neither
      LNK nor URL. */
  lemma DoubleExtListed(x: string)
    requires x in LaunchableDoubleExt
    ensures x in Launchable && x !in ["LNK", "URL"]
  {
  }

  /** Whatever upper casing does, a bait extension that passes the length
      test matches a bait name of at most four letters: the five-letter
      entries EXCEL and LECXE can never match. */
  lemma BaitAtMostFourLetters(e: string)
    ensures ExtIn(e, Bait) ==> |Upper(Tail(e))| <= 4
  {
    if ExtIn(e, Bait) {
      LongBaitNames();
      UpperGrowth(Tail(e));
    }
  }

  /** What a report of the double-extension rule guarantees: the last
      extension is launchable and not a shortcut, and the name without it
      ends in a bait extension of at most four letters. */
  lemma DoubleExtensionSound(filename: string)
    ensures CheckDoubleExtension(filename).0 ==>
      && Upper(Tail(FileExt(filename))) in Launchable
      && Upper(Tail(FileExt(filename))) !in ["LNK", "URL"]
      && var cut := filename[..|filename| - |FileExt(filename)|];
         ExtIn(FileExt(cut), Bait) && |Upper(Tail(FileExt(cut)))| <= 4
  {
    if CheckDoubleExtension(filename).0 {
      var e1 := FileExt(filename);
      DoubleExtListed(Upper(Tail(e1)));
      var cut := filename[..|filename| - |e1|];
      assert SliceTo(filename, |filename| - |e1|) == cut;
      BaitAtMostFourLetters(FileExt(cut));
    }
  }

  /** The rule fires once both of its tests pass on the two extensions it
      extracts. */
  lemma DoubleExtensionOn(f: string, e1: string, cut: string)
    requires FileExt(f) == e1 && ExtIn(e1, LaunchableDoubleExt)
    requires SliceTo(f, |f| - |e1|) == cut && ExtIn(FileExt(cut), Bait)
    ensures CheckDoubleExtension(f) == (true, e1)
  {
  }

  /** The rule stays silent when the text left after cutting the last
      extension off has no bait extension. */
  lemma DoubleExtensionOff(f: string, e1: string, cut: string)
    requires FileExt(f) == e1
    requires SliceTo(f, |f| - |e1|) == cut && !ExtIn(FileExt(cut), Bait)
    ensures !CheckDoubleExtension(f).0
  {
  }

  /** `stem.bait.launchable` is caught and reports the launchable extension. */
  lemma DoubleExtensionFires(stem: string, bait: string, launch: string)
    requires PlainStem(stem) && Letters(bait) && Letters(launch)
    requires ExtMin <= |bait| <= ExtMax && ExtMin <= |launch| <= ExtMax
    requires Upper(bait) in Bait && Upper(launch) in LaunchableDoubleExt
    ensures CheckDoubleExtension(stem + "." + bait + "." + launch) == (true, "." + launch)
  {
    DoubleNameParts(stem, bait, launch);
    DottedLetters(launch);
    DottedLetters(bait);
    DoubleExtensionOn(stem + "." + bait + "." + launch, "." + launch, stem + "." + bait);
  }

  /** The two extensions of `stem.bait.launchable` and the cut between
      them, for letter extensions. */
  lemma DoubleNameParts(stem: string, bait: string, launch: string)
    requires PlainStem(stem) && Letters(bait) && Letters(launch)
    ensures var f := stem + "." + bait + "." + launch;
      && FileExt(f) == "." + launch
      && SliceTo(f, |f| - |"." + launch|) == stem + "." + bait
      && FileExt(stem + "." + bait) == "." + bait
  {
    var first := stem + "." + bait;
    var f := stem + "." + bait + "." + launch;
    assert FileExt(f) == "." + launch by {
      DottedLetters(bait);
      assert first == stem + ("." + bait);
      PlainStemAppend(stem, "." + bait);
      FileExtOfLetters(first, launch);
    }
    assert SliceTo(f, |f| - |"." + launch|) == first by {
      assert f == first + ("." + launch);
      SliceToDropSuffix(first, "." + launch);
    }
    FileExtOfLetters(stem, bait);
  }

  /** `invoice.pdf.exe`, or any plain stem followed by `.pdf.exe`, is
      caught with `.exe` reported. */
  lemma PdfExeCaught(stem: string, f: string)
    requires PlainStem(stem) && f == stem + ".pdf.exe"
    ensures CheckDoubleExtension(f) == (true, ".exe")
  {
    var bait, launch := "pdf", "exe";
    assert Upper(bait) == "PDF";
    assert Upper(launch) == "EXE";
    assert f == stem + "." + bait + "." + launch;
    assert "." + launch == ".exe";
    DoubleExtensionFires(stem, bait, launch);
  }

  /** `report.docx` has a single extension and is not caught. */
  lemma ReportDocx()
    ensures !CheckDoubleExtension("report.docx").0
  {
    assert "report.docx" == "report" + "." + "docx";
    SingleExtensionIsNotDouble("report", "docx");
  }

  /** A name with a single extension is never a double extension. */
  lemma SingleExtensionIsNotDouble(stem: string, body: string)
    requires Letters(body)
    requires forall k :: 0 <= k < |stem| ==> stem[k] != '.' && stem[k] != '/'
    ensures !CheckDoubleExtension(stem + "." + body).0
  {
    var f := stem + "." + body;
    if stem == [] {
      assert f == "." + body;
      assert FileExt(f) == [] by {
        DottedLetters(body);
        SplitExtSpec(f);
      }
    } else {
      assert PlainStem(stem) by { assert stem[0] != '.'; }
      FileExtOfLetters(stem, body);
      assert SliceTo(f, |f| - |"." + body|) == stem by {
        assert f == stem + ("." + body);
        SliceToDropSuffix(stem, "." + body);
      }
      FileExtNoDot(stem);
      DoubleExtensionOff(f, "." + body, stem);
    }
  }

  /** The second split cuts the CLEANED length of the last extension off
      the raw name. Trailing whitespace is cleaned away, so the cut falls
      short of the dot and `stem.bait.launchable ` (trailing space) is not
      caught. */
  lemma TrailingSpaceHidesDoubleExtension(stem: string, bait: string, launch: string)
    requires PlainStem(stem) && Letters(bait) && Letters(launch)
    ensures !CheckDoubleExtension(stem + "." + bait + "." + launch + " ").0
  {
    var first := stem + "." + bait;
    var f := stem + "." + bait + "." + launch + " ";
    assert PlainStem(first) by {
      DottedLetters(bait);
      assert first == stem + ("." + bait);
      PlainStemAppend(stem, "." + bait);
    }
    PaddedExt(first, launch);
    assert SliceTo(f, |f| - |"." + launch|) == first + "." by {
      assert f == (first + ".") + (launch + " ");
      SliceToDropSuffix(first + ".", launch + " ");
    }
    DotOnlyExt(first);
    DoubleExtensionOff(f, "." + launch, first + ".");
  }

  /** A trailing space is cleaned off the extension. */
  lemma PaddedExt(stem: string, body: string)
    requires PlainStem(stem) && Letters(body)
    ensures FileExt(stem + "." + body + " ") == "." + body
  {
    var padded := body + " ";
    forall k | 0 <= k < |padded| ensures padded[k] != '.' && padded[k] != '/' {
      if k < |body| { assert padded[k] == body[k]; }
    }
    assert stem + "." + body + " " == stem + "." + padded;
    SplitExtOfStem(stem, padded);
    assert "." + padded == [] + ("." + body) + " ";
    DottedLetters(body);
    StripPadded([], "." + body, " ");
    RemoveBidirControlsSpec("." + body);
  }

  /** A lone trailing dot is an extension of its own. */
  lemma DotOnlyExt(stem: string)
    requires PlainStem(stem)
    ensures FileExt(stem + ".") == "."
  {
    assert stem + "." == stem + "." + [];
    FileExtOfLetters(stem, []);
  }

  // ---------------------------------------------------------------------
  // Empty file name (heuristic 4)
  // ---------------------------------------------------------------------

  /** A launchable extension behind nothing but whitespace. `fExt` is cut
      off the end of the name by length, with Python's slice rules. */
  function CheckEmptyFilename(filename: string, fExt: string): (r: bool)
    ensures fExt == [] ==> !r
  {
    if |fExt| > 0 then
      var noExt := SliceTo(filename, |filename| - |fExt|);
      if |noExt| == 0 || IsSpaceStr(noExt) then
        Upper(Tail(fExt)) in Launchable
      else
        false
    else
      false
  }

  /** For an extension no longer than the name, the rule holds exactly when
      what precedes the extension is empty or whitespace and the extension
      is launchable. */
  lemma EmptyFilenameSpec(filename: string, fExt: string)
    requires |fExt| <= |filename|
    ensures CheckEmptyFilename(filename, fExt) <==>
      && fExt != []
      && AllSpace(filename[..|filename| - |fExt|])
      && Upper(Tail(fExt)) in Launchable
  {
  }

  /** On the extension the double-extension rule hands it, the rule fires
      only when `splitext` leaves a non-empty, all-whitespace stem in front
      of a launchable extension that needs no cleaning. */
  lemma EmptyFilenameOnNameSound(f: string)
    requires CheckEmptyFilename(f, FileExt(f))
    ensures var (root, raw) := SplitExt(f);
      && |root| > 0 && AllSpace(root)
      && CleanExt(raw) == raw
      && Upper(Tail(raw)) in Launchable
  {
    var (root, raw) := SplitExt(f);
    var e := FileExt(f);
    SplitExtSpec(f);
    FileExtShape(f);
    EmptyFilenameSpec(f, e);
    ExtensionShape(f);
    assert raw[0] == '.' && f[|root|] == raw[0];
    StripFront(raw);
    var st := Strip(raw);
    assert |st| == |raw|;
    assert st == raw;
    RemoveBidirControlsSpec(raw);
    assert f[..|f| - |e|] == root;
  }

  /** Conversely, such a stem in front of such an extension is reported. */
  lemma EmptyFilenameOnNameComplete(f: string)
    requires var (root, raw) := SplitExt(f);
      && |root| > 0 && AllSpace(root)
      && CleanExt(raw) == raw
      && Upper(Tail(raw)) in Launchable
    ensures CheckEmptyFilename(f, FileExt(f))
  {
    var (root, raw) := SplitExt(f);
    SplitExtSpec(f);
    assert raw != [];
    assert f[..|f| - |raw|] == root;
    EmptyFilenameSpec(f, raw);
  }

  /** Names that do not start with whitespace (`.exe`, `readme.exe`,
      `. .exe`) are never reported as empty. */
  lemma EmptyFilenameNeedsLeadingSpace(f: string)
    requires |f| > 0 && !IsSpace(f[0])
    ensures !CheckEmptyFilename(f, FileExt(f))
  {
    if CheckEmptyFilename(f, FileExt(f)) {
      EmptyFilenameOnNameSound(f);
      SplitExtSpec(f);
    }
  }

  /** Whitespace followed by a launchable extension is reported. */
  lemma EmptyFilenameFires(spaces: string, body: string)
    requires IsSpaceStr(spaces) && Letters(body) && Upper(body) in Launchable
    ensures CheckEmptyFilename(spaces + "." + body, FileExt(spaces + "." + body))
  {
    var f := spaces + "." + body;
    SpacesArePlainStem(spaces);
    SpacedName(spaces, body);
    EmptyFilenameSpec(f, "." + body);
  }

  /** Whitespace holds neither dots nor separators. */
  lemma SpacesArePlainStem(spaces: string)
    requires IsSpaceStr(spaces)
    ensures PlainStem(spaces)
  {
    assert IsSpace(spaces[0]);
    forall k | 0 <= k < |spaces| ensures spaces[k] != '/' {
      assert IsSpace(spaces[k]);
    }
  }

  /** The parts of `stem.body` the empty-name rule looks at. */
  lemma SpacedName(spaces: string, body: string)
    requires PlainStem(spaces) && Letters(body)
    ensures var f := spaces + "." + body;
      && FileExt(f) == "." + body
      && f[..|f| - |"." + body|] == spaces
      && Tail("." + body) == body
  {
    var f := spaces + "." + body;
    FileExtOfLetters(spaces, body);
    DottedLetters(body);
    assert f == spaces + ("." + body);
    assert f[..|spaces|] == spaces;
  }

  // ---------------------------------------------------------------------
  // Whitespace and filler flooding (heuristic 1)
  // ---------------------------------------------------------------------

  /** The regular-expression class `[- \t!@#$^&()=+*%]`. The underscore is
      not in it. */
  predicate IsFiller(c: char) {
    || c == '-' || c == ' ' || c == '\t' || c == '!' || c == '@' || c == '#'
    || c == '$' || c == '^' || c == '&' || c == '(' || c == ')' || c == '='
    || c == '+' || c == '*' || c == '%'
  }

  /** `len(re.findall(class, s))`: the number of filler characters. */
  function CountFillers(s: string): (n: nat)
    ensures n <= |s|
  {
    if s == [] then 0 else (if IsFiller(s[0]) then 1 else 0) + CountFillers(s[1..])
  }

  /** The count is zero exactly when no character is a filler, and the
      whole length exactly when every character is one. */
  lemma {:induction false} CountFillersSpec(s: string)
    ensures CountFillers(s) == 0 <==> forall k :: 0 <= k < |s| ==> !IsFiller(s[k])
    ensures CountFillers(s) == |s| <==> forall k :: 0 <= k < |s| ==> IsFiller(s[k])
  {
    if s != [] {
      CountFillersSpec(s[1..]);
      assert forall k :: 1 <= k < |s| ==> s[k] == s[1..][k - 1];
    }
  }

  /** Counting fillers distributes over concatenation. */
  lemma {:induction false} CountFillersAppend(a: string, b: string)
    ensures CountFillers(a + b) == CountFillers(a) + CountFillers(b)
  {
    if a == [] {
      assert a + b == b;
    } else {
      assert (a + b)[0] == a[0];
      assert (a + b)[1..] == a[1..] + b;
      CountFillersAppend(a[1..], b);
    }
  }

  /** Underscores are not counted. */
  lemma UnderscoreIsNotFiller(a: string, b: string)
    ensures CountFillers(a + "_" + b) == CountFillers(a + b)
  {
    CountFillersAppend(a + "_", b);
    CountFillersAppend(a, "_");
    CountFillersAppend(a, b);
  }

  /** Every character of `s` is a filler; CountFillersSpec shows this is
      the same as the count reaching the length. */
  predicate AllFillers(s: string) {
    CountFillers(s) == |s|
  }

  /** At least ten fillers, more fillers than other characters, and a
      launchable extension. */
  function CheckFilenameWs(filename: string, fExt: string): (r: bool)
    ensures fExt == [] ==> !r
    ensures r ==> |filename| >= 10
    ensures r ==> && 2 * CountFillers(filename) > |filename|
                  && CountFillers(filename) >= 10
                  && Upper(Tail(fExt)) in Launchable
  {
    var wsCount := CountFillers(filename);
    if 2 * wsCount > |filename| && wsCount >= 10 then
      Upper(Tail(fExt)) in Launchable
    else
      false
  }

  /** A dot and letters hold no filler. */
  lemma NoFillersInDottedLetters(body: string)
    requires Letters(body)
    ensures CountFillers("." + body) == 0
  {
    var e := "." + body;
    forall k | 0 <= k < |e| ensures !IsFiller(e[k]) {
      if k > 0 { assert e[k] == body[k - 1]; }
    }
    CountFillersSpec(e);
  }

  /** Ten or more fillers in front of a short letter extension make the name
      flooded; it is reported exactly when the extension is launchable. */
  lemma FillerFloodFires(fill: string, body: string)
    requires |fill| >= 10 && AllFillers(fill)
    requires Letters(body) && |fill| > |body| + 1
    ensures CheckFilenameWs(fill + "." + body, FileExt(fill + "." + body))
            <==> Upper(body) in Launchable
  {
    var f := fill + "." + body;
    FilledName(fill, body);
    var e := FileExt(f);
    assert Upper(Tail(e)) == Upper(body);
    assert 2 * CountFillers(f) > |f|;
    FloodedVerdict(f, e);
  }

  /** On a flooded name the verdict is the launchability of the extension. */
  lemma FloodedVerdict(f: string, fExt: string)
    requires 2 * CountFillers(f) > |f| && CountFillers(f) >= 10
    ensures CheckFilenameWs(f, fExt) == (Upper(Tail(fExt)) in Launchable)
  {
  }

  /** The parts of `fill.body` the flooding rule looks at. */
  lemma FilledName(fill: string, body: string)
    requires |fill| > 0 && AllFillers(fill)
    requires Letters(body)
    ensures var f := fill + "." + body;
      && FileExt(f) == "." + body
      && Tail("." + body) == body
      && CountFillers(f) == |fill|
  {
    FillersArePlainStem(fill);
    FileExtOfLetters(fill, body);
    DottedLetters(body);
    FillersThenLetters(fill, body);
  }

  /** Fillers hold neither dots nor separators. */
  lemma FillersArePlainStem(fill: string)
    requires |fill| > 0 && AllFillers(fill)
    ensures PlainStem(fill)
  {
    CountFillersSpec(fill);
    assert IsFiller(fill[0]);
    forall k | 0 <= k < |fill| ensures fill[k] != '/' {
      assert IsFiller(fill[k]);
    }
  }

  /** Only the fillers in front of a dotted letter extension are counted. */
  lemma FillersThenLetters(fill: string, body: string)
    requires AllFillers(fill)
    requires Letters(body)
    ensures CountFillers(fill + "." + body) == |fill|
  {
    assert fill + "." + body == fill + ("." + body);
    CountFillersAppend(fill, "." + body);
    NoFillersInDottedLetters(body);
  }

  /** Prepending fillers to a name that is reported keeps it reported. */
  lemma FillerPrefixKeepsFlood(fill: string, f: string)
    requires AllFillers(fill)
    requires CheckFilenameWs(f, FileExt(f))
    ensures CheckFilenameWs(fill + f, FileExt(fill + f))
  {
    FileExtShape(f);
    assert SplitExt(f).1 != [];
    SplitExtPrepend(fill, f);
    CountFillersAppend(fill, f);
  }

  // ---------------------------------------------------------------------
  // Unicode extension hiding (heuristic 3)
  // ---------------------------------------------------------------------

  /** The extension a reader sees: the name with isolates rewritten,
      rendered by `display`, split, and stripped of controls (but not of
      whitespace). */
  function DisplayedExt(filename: string, display: string -> string): (d: string)
  {
    RemoveBidirControls(SplitExt(display(RewriteIsolates(filename))).1)
  }

  /** The displayed extension is empty or a dot followed by no other dot. */
  lemma DisplayedExtShape(filename: string, display: string -> string)
    ensures var d := DisplayedExt(filename, display);
      d == [] || (d[0] == '.' && forall k :: 1 <= k < |d| ==> d[k] != '.')
  {
    var raw := SplitExt(display(RewriteIsolates(filename))).1;
    ExtensionShape(display(RewriteIsolates(filename)));
    if raw != [] {
      assert raw == [raw[0]] + raw[1..];
      RemoveBidirControlsAppend([raw[0]], raw[1..]);
      var tail := RemoveBidirControls(raw[1..]);
      var d := DisplayedExt(filename, display);
      assert d == ['.'] + tail;
      forall k | 1 <= k < |d| ensures d[k] != '.' {
        assert d[k] == tail[k - 1];
        RemoveBidirControlsMembers(raw[1..], d[k]);
        var j :| 0 <= j < |raw[1..]| && raw[1..][j] == d[k];
        assert raw[1..][j] == raw[j + 1];
      }
    }
  }

  /** A name carrying one of the seven bidirectional controls whose
      rendered extension (two to four characters after the dot) differs
      from the extension actually stored. */
  function CheckUnicodeBidirCtrls(filename: string, fExt: string, display: string -> string): (r: bool)
    ensures !HasBidirCtrl(filename) ==> !r
    ensures r ==> 3 <= |DisplayedExt(filename, display)| <= 5 && DisplayedExt(filename, display) != fExt
  {
    if !HasBidirCtrl(filename) then
      false
    else
      var fExtDisplay := DisplayedExt(filename, display);
      |fExtDisplay| > 0 && 3 <= |fExtDisplay| <= 5 && fExt != fExtDisplay
  }

  /** Isolates alone never pass the presence test, however they render. */
  lemma IsolatesAloneNeverHide(filename: string, fExt: string, display: string -> string)
    requires forall k :: 0 <= k < |filename| ==> IsIsolate(filename[k]) || !IsBidirCtrl(filename[k])
    ensures !CheckUnicodeBidirCtrls(filename, fExt, display)
  {
  }

  /** A renderer that shows an isolate-free name as stored never makes the
      rule fire when the stored extension has no whitespace padding. */
  lemma HidingNeedsReordering(filename: string, display: string -> string)
    requires forall k :: 0 <= k < |filename| ==> !IsIsolate(filename[k])
    requires display(filename) == filename
    requires Trimmed(SplitExt(filename).1)
    ensures !CheckUnicodeBidirCtrls(filename, FileExt(filename), display)
  {
    RewriteIsolatesNoIsolates(filename);
    StripTrimmed(SplitExt(filename).1);
  }

  /** A stem of letters, a control and reversed letters is a plain stem
      without isolates. */
  lemma RtloStem(stem: string, bait: string)
    requires |stem| > 0 && Letters(stem) && Letters(bait)
    ensures var front := stem + [RLO] + Reverse(bait);
      && PlainStem(front)
      && (forall k :: 0 <= k < |front| ==> !IsIsolate(front[k]))
      && front[|stem|] == RLO
  {
    var front := stem + [RLO] + Reverse(bait);
    ReverseIndex(bait);
    assert front[0] == stem[0];
    forall k | 0 <= k < |front| ensures front[k] != '/' && !IsIsolate(front[k]) {
      if k < |stem| {
        assert front[k] == stem[k];
      } else if k > |stem| {
        assert front[k] == bait[|bait| - 1 - (k - |stem| - 1)];
      }
    }
  }

  /** The right-to-left override attack: `stem RLO reversed(bait).actual`.
      An override that is never closed reverses everything after it, so a
      renderer shows `stem reversed(actual).bait`. When it does, the rule
      fires, and the stored extension is `.actual`. */
  lemma RtloHidesExtension(stem: string, bait: string, actual: string, display: string -> string)
    requires |stem| > 0 && Letters(stem) && Letters(bait) && Letters(actual)
    requires 2 <= |bait| <= 4 && bait != actual
    requires display(stem + [RLO] + Reverse(bait) + "." + actual) == stem + Reverse(actual) + "." + bait
    ensures var f := stem + [RLO] + Reverse(bait) + "." + actual;
      FileExt(f) == "." + actual && CheckUnicodeBidirCtrls(f, FileExt(f), display)
  {
    var front := stem + [RLO] + Reverse(bait);
    var f := stem + [RLO] + Reverse(bait) + "." + actual;
    RtloStem(stem, bait);
    assert HasBidirCtrl(front) by { assert IsBidirCtrl(front[|stem|]); }
    RtloName(front, actual, f);
    RtloShown(stem, bait, actual, f, display);
    assert "." + bait != "." + actual by {
      assert ("." + bait)[1..] == bait;
      assert ("." + actual)[1..] == actual;
    }
  }

  /** The stored override name has the extension `.actual`, carries a
      control, and has no isolate to rewrite. */
  lemma RtloName(front: string, actual: string, f: string)
    requires PlainStem(front) && (forall k :: 0 <= k < |front| ==> !IsIsolate(front[k]))
    requires HasBidirCtrl(front) && Letters(actual) && f == front + "." + actual
    ensures FileExt(f) == "." + actual && HasBidirCtrl(f) && RewriteIsolates(f) == f
  {
    FileExtOfLetters(front, actual);
    RtloNameCtrl(front, "." + actual, f);
    RtloNameNoIsolates(front, actual, f);
  }

  /** A control in front survives appending. */
  lemma RtloNameCtrl(front: string, tail: string, f: string)
    requires HasBidirCtrl(front) && f == front + tail
    ensures HasBidirCtrl(f)
  {
    var k :| 0 <= k < |front| && IsBidirCtrl(front[k]);
    assert f[k] == front[k];
  }

  /** No isolate in front or in a letter extension means none to rewrite. */
  lemma RtloNameNoIsolates(front: string, actual: string, f: string)
    requires (forall k :: 0 <= k < |front| ==> !IsIsolate(front[k])) && Letters(actual)
    requires f == front + "." + actual
    ensures RewriteIsolates(f) == f
  {
    DottedLetters(actual);
    forall k | 0 <= k < |f| ensures !IsIsolate(f[k]) {
      if k < |front| { assert f[k] == front[k]; } else { assert f[k] == ("." + actual)[k - |front|]; }
    }
    RewriteIsolatesNoIsolates(f);
  }

  /** The rendered override name shows the extension `.bait`. */
  lemma RtloShown(stem: string, bait: string, actual: string, f: string, display: string -> string)
    requires |stem| > 0 && Letters(stem) && Letters(bait) && Letters(actual)
    requires RewriteIsolates(f) == f
    requires display(f) == stem + Reverse(actual) + "." + bait
    ensures DisplayedExt(f, display) == "." + bait
  {
    var shown := stem + Reverse(actual);
    assert PlainStem(shown) by {
      ReverseIndex(actual);
      assert shown[0] == stem[0];
      forall k | 0 <= k < |shown| ensures shown[k] != '/' {
        if k < |stem| {
          assert shown[k] == stem[k];
        } else {
          assert shown[k] == actual[|actual| - 1 - (k - |stem|)];
        }
      }
    }
    assert DisplayedExt(f, display) == "." + bait by {
      SplitExtOfStem(shown, bait);
      DottedLetters(bait);
      RemoveBidirControlsSpec("." + bait);
    }
  }

  // ---------------------------------------------------------------------
  // Phishing character in an HTML file name (heuristic 5)
  // ---------------------------------------------------------------------

  /** An HTML file whose name holds one of the phishing glyphs. */
  function HasPhishingCharHtml(filename: string, fileType: string): (r: bool)
    ensures r <==> fileType == HtmlType
                   && exists k :: 0 <= k < |filename| && filename[k] in PhishingChars
  {
    fileType == HtmlType && exists c | c in PhishingChars :: c in filename
  }

  // ---------------------------------------------------------------------
  // Characters outside every table
  // ---------------------------------------------------------------------

  /** U+E000, a private-use character, is plain for the string operations
      and character classes of the rules: it is not whitespace, upper
      casing keeps it, and it is no control, isolate, filler, dot or
      separator. A lone surrogate, which a Python name can hold but a Dafny
      `char` cannot, behaves the same way in all these respects. */
  lemma PrivateUseIsPlain()
    ensures var c := '\U{E000}';
      && !IsSpace(c) && UpperChar(c) == [c]
      && !IsBidirCtrl(c) && !IsIsolate(c) && !IsFiller(c)
      && c != '.' && c != '/'
  {
  }
}
