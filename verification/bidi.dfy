/** Unicode bidirectional controls as the filename rules see them: the
    seven controls the service looks for, their removal, and the rewrite of
    the four directional isolates into their embedding equivalents before a
    name is rendered. */
module Bidi {
  import opened PyStr

  const RLO: char := '\U{202E}'  // right-to-left override
  const RLE: char := '\U{202B}'  // right-to-left embedding
  const RLM: char := '\U{200F}'  // right-to-left mark
  const LRO: char := '\U{202D}'  // left-to-right override
  const LRE: char := '\U{202A}'  // left-to-right embedding
  const LRM: char := '\U{200E}'  // left-to-right mark
  const PDF: char := '\U{202C}'  // pop directional formatting

  const LRI: char := '\U{2066}'  // left-to-right isolate
  const RLI: char := '\U{2067}'  // right-to-left isolate
  const FSI: char := '\U{2068}'  // first strong isolate
  const PDI: char := '\U{2069}'  // pop directional isolate

  const RtlCtrls: seq<char> := [RLO, RLE, RLM]
  const LtrCtrls: seq<char> := [LRO, LRE, LRM]
  const PopCtrls: seq<char> := [PDF]

  /** The controls whose presence makes the service look for a hidden
      extension. The isolates are not among them. */
  const BidirCtrls: seq<char> := RtlCtrls + LtrCtrls + PopCtrls

  /** One of the seven controls, tested character by character. */
  predicate IsBidirCtrl(c: char) {
    c == RLO || c == RLE || c == RLM || c == LRO || c == LRE || c == LRM || c == PDF
  }

  /** IsBidirCtrl is membership in BidirCtrls. */
  lemma IsBidirCtrlListed(c: char)
    ensures IsBidirCtrl(c) <==> c in BidirCtrls
  {
    assert BidirCtrls == [RLO, RLE, RLM, LRO, LRE, LRM, PDF];
  }

  predicate IsIsolate(c: char) {
    c == LRI || c == RLI || c == FSI || c == PDI
  }

  /** Some character of `s` is one of the seven controls. */
  predicate HasBidirCtrl(s: string) {
    exists k :: 0 <= k < |s| && IsBidirCtrl(s[k])
  }

  /** HasBidirCtrl is the service's presence test: some control of the list
      occurs in the name. */
  lemma HasBidirCtrlAny(s: string)
    ensures HasBidirCtrl(s) <==> exists c :: c in BidirCtrls && c in s
  {
    if HasBidirCtrl(s) {
      var k :| 0 <= k < |s| && IsBidirCtrl(s[k]);
      IsBidirCtrlListed(s[k]);
    }
    if exists c :: c in BidirCtrls && c in s {
      var c :| c in BidirCtrls && c in s;
      IsBidirCtrlListed(c);
      var k :| 0 <= k < |s| && s[k] == c;
    }
  }

  /** The library's control remover, taken to drop every character of
      BidirCtrls and keep the rest in order. */
  function RemoveBidirControls(s: string): (r: string)
    ensures |r| <= |s|
  {
    if s == [] then []
    else (if IsBidirCtrl(s[0]) then [] else [s[0]]) + RemoveBidirControls(s[1..])
  }

  /** Removal leaves no control behind, and it shortens the text exactly
      when the text has a control. */
  lemma {:induction false} RemoveBidirControlsSpec(s: string)
    ensures var r := RemoveBidirControls(s);
      && !HasBidirCtrl(r)
      && (!HasBidirCtrl(s) ==> r == s)
      && (|r| == |s| <==> !HasBidirCtrl(s))
  {
    if s != [] {
      RemoveBidirControlsSpec(s[1..]);
      var r := RemoveBidirControls(s);
      var rest := RemoveBidirControls(s[1..]);
      var h := if IsBidirCtrl(s[0]) then [] else [s[0]];
      assert r == h + rest;
      assert !HasBidirCtrl(r) by {
        forall k | 0 <= k < |r| ensures !IsBidirCtrl(r[k]) {
          if k >= |h| { assert r[k] == rest[k - |h|]; }
        }
      }
      if HasBidirCtrl(s) {
        var k :| 0 <= k < |s| && IsBidirCtrl(s[k]);
        if k > 0 { assert s[1..][k - 1] == s[k]; }
      } else {
        assert !HasBidirCtrl(s[1..]) by {
          forall k | 0 <= k < |s| - 1 ensures !IsBidirCtrl(s[1..][k]) {
            assert s[1..][k] == s[k + 1];
          }
        }
        assert s == [s[0]] + s[1..];
      }
    }
  }

  /** Removal keeps exactly the characters that are not controls. */
  lemma {:induction false} RemoveBidirControlsMembers(s: string, c: char)
    ensures c in RemoveBidirControls(s) <==> c in s && !IsBidirCtrl(c)
  {
    if s != [] {
      RemoveBidirControlsMembers(s[1..], c);
      assert s == [s[0]] + s[1..];
    }
  }

  /** Removing controls acts on each part of a concatenation separately. */
  lemma {:induction false} RemoveBidirControlsAppend(a: string, b: string)
    ensures RemoveBidirControls(a + b) == RemoveBidirControls(a) + RemoveBidirControls(b)
  {
    if a == [] {
      assert a + b == b;
    } else {
      assert (a + b)[0] == a[0];
      assert (a + b)[1..] == a[1..] + b;
      RemoveBidirControlsAppend(a[1..], b);
    }
  }

  /** Removing controls twice is removing them once. */
  lemma RemoveBidirControlsIdempotent(s: string)
    ensures RemoveBidirControls(RemoveBidirControls(s)) == RemoveBidirControls(s)
  {
    RemoveBidirControlsSpec(s);
    RemoveBidirControlsSpec(RemoveBidirControls(s));
  }

  /** The pre-pass that replaces each isolate by its embedding counterpart
      (LRI by LRE, RLI by RLE, PDI by PDF) and deletes FSI, done as four
      successive `str.replace` calls. */
  function RewriteIsolates(s: string): (r: string)
    ensures |r| <= |s|
  {
    var s1 := Replace(s, LRI, [LRE]);
    var s2 := Replace(s1, RLI, [RLE]);
    var s3 := Replace(s2, FSI, []);
    Replace(s3, PDI, [PDF])
  }

  /** After the rewrite no isolate is left. */
  lemma RewriteIsolatesSpec(s: string)
    ensures forall k :: 0 <= k < |RewriteIsolates(s)| ==> !IsIsolate(RewriteIsolates(s)[k])
  {
    var s1 := Replace(s, LRI, [LRE]);
    var s2 := Replace(s1, RLI, [RLE]);
    var s3 := Replace(s2, FSI, []);
    var r := Replace(s3, PDI, [PDF]);
    forall k | 0 <= k < |r| ensures !IsIsolate(r[k]) {
      var x := r[k];
      ReplaceMembers(s3, PDI, [PDF], x);
      ReplaceMembers(s2, FSI, [], x);
      ReplaceMembers(s1, RLI, [RLE], x);
      ReplaceMembers(s, LRI, [LRE], x);
    }
  }

  /** What the rewrite makes of one character. */
  function IsolateEquivalent(c: char): (r: string)
    ensures IsIsolate(c) <==> r != [c]
  {
    if c == LRI then [LRE]
    else if c == RLI then [RLE]
    else if c == FSI then []
    else if c == PDI then [PDF]
    else [c]
  }

  /** The four successive replacements act on each part of a concatenation
      separately. */
  lemma RewriteIsolatesAppend(a: string, b: string)
    ensures RewriteIsolates(a + b) == RewriteIsolates(a) + RewriteIsolates(b)
  {
    var a1, b1 := Replace(a, LRI, [LRE]), Replace(b, LRI, [LRE]);
    ReplaceAppend(a, b, LRI, [LRE]);
    var a2, b2 := Replace(a1, RLI, [RLE]), Replace(b1, RLI, [RLE]);
    ReplaceAppend(a1, b1, RLI, [RLE]);
    var a3, b3 := Replace(a2, FSI, []), Replace(b2, FSI, []);
    ReplaceAppend(a2, b2, FSI, []);
    ReplaceAppend(a3, b3, PDI, [PDF]);
  }

  /** On one character, the four replacements give its IsolateEquivalent;
      together with RewriteIsolatesAppend this says the rewrite works
      character by character. */
  lemma RewriteIsolatesChar(c: char)
    ensures RewriteIsolates([c]) == IsolateEquivalent(c)
  {
  }

  /** A name without isolates is left unchanged by the rewrite. */
  lemma RewriteIsolatesNoIsolates(s: string)
    requires forall k :: 0 <= k < |s| ==> !IsIsolate(s[k])
    ensures RewriteIsolates(s) == s
  {
    ReplaceAbsent(s, LRI, [LRE]);
    ReplaceAbsent(s, RLI, [RLE]);
    ReplaceAbsent(s, FSI, []);
    ReplaceAbsent(s, PDI, [PDF]);
  }
}
