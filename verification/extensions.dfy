/** The fixed name lists the filename rules compare against. Extension
    lists hold upper-case bodies without the leading dot. */
module Extensions {
  import opened PyStr

  /** Extensions that run code or trigger an action when opened. */
  const Launchable: seq<string> :=
    ["AS", "BAT", "CMD", "COM", "DLL", "EXE", "INF", "JS", "LNK", "SCR", "URL"]

  /** `list.remove(x)`: drop the first occurrence of `x`. When `x` is
      absent, Python raises `ValueError` and this function returns the list
      unchanged; the service only removes names that are in the list. */
  function RemoveFirst(xs: seq<string>, x: string): (r: seq<string>)
    ensures x !in xs ==> r == xs
    ensures x in xs ==> |r| == |xs| - 1
  {
    if xs == [] then []
    else if xs[0] == x then xs[1..]
    else [xs[0]] + RemoveFirst(xs[1..], x)
  }

  /** RemoveFirst deletes exactly the first occurrence: what comes before
      it and everything after it stay, in order. */
  lemma {:induction false} RemoveFirstSplit(a: seq<string>, x: string, b: seq<string>)
    requires x !in a
    ensures RemoveFirst(a + [x] + b, x) == a + b
  {
    if a == [] {
      assert a + [x] + b == [x] + b;
    } else {
      assert (a + [x] + b)[0] == a[0];
      assert (a + [x] + b)[1..] == a[1..] + [x] + b;
      RemoveFirstSplit(a[1..], x, b);
      assert a + b == [a[0]] + (a[1..] + b);
    }
  }

  /** The launchable list the double-extension rule uses: shortcuts (LNK
      and URL) are left out. The service builds it by removing them from a
      copy of Launchable; LaunchableDoubleExtValue proves this list is what
      that removal yields. */
  const LaunchableDoubleExt: seq<string> := ["AS", "BAT", "CMD", "COM", "DLL", "EXE", "INF", "JS", "SCR"]

  /** Extensions of documents, images and archives a victim trusts. */
  const BaitBase: seq<string> :=
    ["BMP", "DOC", "DOCX", "DOT", "EXCEL", "JPG", "JPEG", "PDF", "PNG",
     "PPT", "PPTX", "TEXT", "TXT", "WORD", "XLS", "XLSX", "ZIP"]

  /** Every name of `xs` spelt backwards, in the same order. */
  function ReverseAll(xs: seq<string>): (r: seq<string>)
    ensures |r| == |xs|
    ensures forall i :: 0 <= i < |xs| ==> r[i] == Reverse(xs[i])
  {
    seq(|xs|, i requires 0 <= i < |xs| => Reverse(xs[i]))
  }

  /** Each name of ReverseAll(xs) is the matching name of `xs` read from its
      last character to its first, as Python's `[::-1]` reads it. */
  lemma ReverseAllChars(xs: seq<string>)
    ensures forall i :: 0 <= i < |xs| ==> |ReverseAll(xs)[i]| == |xs[i]|
    ensures forall i, k :: 0 <= i < |xs| && 0 <= k < |xs[i]| ==>
      ReverseAll(xs)[i][k] == xs[i][|xs[i]| - 1 - k]
  {
    forall i | 0 <= i < |xs|
      ensures forall k :: 0 <= k < |xs[i]| ==> ReverseAll(xs)[i][k] == xs[i][|xs[i]| - 1 - k]
    {
      ReverseIndex(xs[i]);
    }
  }

  /** The bait list followed by its reversed forms, which show up when a
      right-to-left override flips the text in front of them. */
  const Bait: seq<string> := BaitBase + ReverseAll(BaitBase)

  /** Glyphs (media controls, telephones, envelopes, mailboxes, speakers,
      locks, bells, bookmarks, printers, shopping bags) found in the names
      of phishing HTML attachments. */
  const PhishingChars: seq<char> := [
    '\U{23ED}', '\U{23EE}', '\U{25B6}', '\U{260E}', '\U{266B}', '\U{1F3B6}', '\U{1F4C3}', '\U{1F4C4}',
    '\U{1F4CC}', '\U{1F4DE}', '\U{1F4E0}', '\U{1F4E7}', '\U{1F4E8}', '\U{1F4E9}', '\U{1F4EA}', '\U{1F4EB}',
    '\U{1F4EC}', '\U{1F4ED}', '\U{1F507}', '\U{1F508}', '\U{1F509}', '\U{1F50A}', '\U{1F50F}', '\U{1F510}',
    '\U{1F511}', '\U{1F512}', '\U{1F513}', '\U{1F514}', '\U{1F515}', '\U{1F516}', '\U{1F568}', '\U{1F569}',
    '\U{1F56A}', '\U{1F56B}', '\U{1F56C}', '\U{1F56D}', '\U{1F57B}', '\U{1F57C}', '\U{1F57D}', '\U{1F57E}',
    '\U{1F57F}', '\U{1F580}', '\U{1F581}', '\U{1F582}', '\U{1F583}', '\U{1F584}', '\U{1F585}', '\U{1F586}',
    '\U{1F5A8}', '\U{1F6CD}'
  ]

  /** The double-extension list is the launchable list after removing LNK
      and then URL. */
  lemma LaunchableDoubleExtValue()
    ensures LaunchableDoubleExt == RemoveFirst(RemoveFirst(Launchable, "LNK"), "URL")
  {
    DropShortcuts(Launchable, ["AS", "BAT", "CMD", "COM", "DLL", "EXE", "INF", "JS"]);
  }

  lemma DropShortcuts(xs: seq<string>, front: seq<string>)
    requires "LNK" !in front && "URL" !in front
    requires xs == front + ["LNK"] + ["SCR", "URL"]
    ensures RemoveFirst(RemoveFirst(xs, "LNK"), "URL") == front + ["SCR"]
  {
    RemoveFirstSplit(front, "LNK", ["SCR", "URL"]);
    assert front + ["SCR", "URL"] == (front + ["SCR"]) + ["URL"] + [];
    RemoveFirstSplit(front + ["SCR"], "URL", []);
  }

  /** Only two bait names are longer than four letters: EXCEL and its
      reversal LECXE, and neither has an F or an S in it. */
  lemma LongBaitNames()
    ensures forall x :: x in Bait && |x| > 4 ==>
      |x| == 5 && forall k :: 0 <= k < |x| ==> x[k] != 'F' && x[k] != 'S'
  {
    var long := "EXCEL";
    assert forall i :: 0 <= i < |BaitBase| && |BaitBase[i]| > 4 ==> BaitBase[i] == long;
    LongNamesReversed(BaitBase, long);
  }

  /** If `long` is the only name of `xs` longer than four letters, then in
      `xs` followed by its reversed forms every such name is `long` or
      `long` reversed. */
  lemma LongNamesReversed(xs: seq<string>, long: string)
    requires forall i :: 0 <= i < |xs| && |xs[i]| > 4 ==> xs[i] == long
    requires |long| == 5 && forall k :: 0 <= k < |long| ==> long[k] != 'F' && long[k] != 'S'
    ensures forall x :: x in xs + ReverseAll(xs) && |x| > 4 ==>
      |x| == 5 && forall k :: 0 <= k < |x| ==> x[k] != 'F' && x[k] != 'S'
  {
    ReverseIndex(long);
    forall x | x in xs + ReverseAll(xs) && |x| > 4
      ensures |x| == 5 && forall k :: 0 <= k < |x| ==> x[k] != 'F' && x[k] != 'S'
    {
      if x !in xs {
        var i :| 0 <= i < |xs| && x == ReverseAll(xs)[i];
        assert xs[i] == long;
      }
    }
  }
}
