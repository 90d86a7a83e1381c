/** Models of the Python `str` operations the filename rules rely on:
    `strip()`, `isspace()`, `upper()`, the slices `s[1:]`, `s[:n]` and
    `s[::-1]`, `rfind` of one character and `replace` of one character.
    A Python `str` is a sequence of code points, so it is modelled as
    `string`, one `char` per code point.

    The functions carry only length facts in their contracts; what each one
    computes is stated by the lemma that follows it, so that callers pay for
    a property only where they use it. */
module PyStr {

  /** The code points for which Python's `str.isspace()` holds: U+0009 to
      U+000D, U+001C to U+0020, U+0085, U+00A0, U+1680, U+2000 to U+200A,
      U+2028, U+2029, U+202F, U+205F and U+3000. `strip()` with no argument
      removes exactly these. */
  predicate IsSpace(c: char) {
    var n := c as int;
    || 0x9 <= n <= 0xD
    || 0x1C <= n <= 0x20
    || n == 0x85 || n == 0xA0 || n == 0x1680
    || 0x2000 <= n <= 0x200A
    || n == 0x2028 || n == 0x2029 || n == 0x202F || n == 0x205F || n == 0x3000
  }

  /** Every character of `s` is whitespace (vacuously true of ""). */
  predicate AllSpace(s: string) {
    forall k :: 0 <= k < |s| ==> IsSpace(s[k])
  }

  /** Python's `s.isspace()`: false on the empty string. */
  predicate IsSpaceStr(s: string) {
    |s| > 0 && AllSpace(s)
  }

  /** A string with no whitespace at either end. */
  predicate Trimmed(s: string) {
    s == [] || (!IsSpace(s[0]) && !IsSpace(s[|s| - 1]))
  }

  /** `s.lstrip()`. */
  function LStrip(s: string): (r: string)
    ensures |r| <= |s|
  {
    if |s| > 0 && IsSpace(s[0]) then LStrip(s[1..]) else s
  }

  /** lstrip() keeps the longest suffix that does not start with whitespace
      and drops only whitespace. */
  lemma {:induction false} LStripSpec(s: string)
    ensures var r := LStrip(s);
      && r == s[|s| - |r|..]
      && AllSpace(s[..|s| - |r|])
      && (r == [] || !IsSpace(r[0]))
  {
    if |s| > 0 && IsSpace(s[0]) {
      LStripSpec(s[1..]);
      var r := LStrip(s);
      assert s[1..][|s| - 1 - |r|..] == s[|s| - |r|..];
      forall k | 0 <= k < |s| - |r| ensures IsSpace(s[k]) {
        if k > 0 { assert s[k] == s[1..][..|s| - 1 - |r|][k - 1]; }
      }
    }
  }

  /** `s.rstrip()`. */
  function RStrip(s: string): (r: string)
    ensures |r| <= |s|
  {
    if |s| > 0 && IsSpace(s[|s| - 1]) then RStrip(s[..|s| - 1]) else s
  }

  /** rstrip() keeps the longest prefix that does not end with whitespace
      and drops only whitespace. */
  lemma {:induction false} RStripSpec(s: string)
    ensures var r := RStrip(s);
      && r == s[..|r|]
      && AllSpace(s[|r|..])
      && (r == [] || !IsSpace(r[|r| - 1]))
  {
    if |s| > 0 && IsSpace(s[|s| - 1]) {
      var s' := s[..|s| - 1];
      RStripSpec(s');
      var r := RStrip(s);
      assert s'[..|r|] == s[..|r|];
      forall k | |r| <= k < |s| ensures IsSpace(s[k]) {
        if k < |s| - 1 { assert s[k] == s'[|r|..][k - |r|]; }
      }
    }
  }

  /** `s.strip()`. */
  function Strip(s: string): (r: string)
    ensures |r| <= |s|
  {
    RStrip(LStrip(s))
  }

  /** strip() removes whitespace padding on both sides, and only that: the
      result is a trimmed slice of `s` with whitespace on either side. */
  lemma StripSpec(s: string)
    ensures var r := Strip(s);
      && Trimmed(r)
      && exists i :: 0 <= i <= |s| - |r| && r == s[i..i + |r|]
                     && AllSpace(s[..i]) && AllSpace(s[i + |r|..])
  {
    var l := LStrip(s);
    LStripSpec(s);
    RStripSpec(l);
    var r := Strip(s);
    var i := |s| - |l|;
    assert r == s[i..i + |r|];
    assert s[i + |r|..] == l[|r|..];
    if r != [] && l != [] {
      assert r[0] == l[0];
    }
  }

  /** strip() gives "" exactly on strings made of whitespace. */
  lemma StripEmpty(s: string)
    ensures Strip(s) == [] <==> AllSpace(s)
  {
    LStripSpec(s);
    var l := LStrip(s);
    RStripSpec(l);
    if Strip(s) == [] {
      assert l == [];
      assert s == s[..|s| - |l|];
    }
  }

  /** A string that starts with a character other than whitespace keeps
      its front under strip(): only a whitespace tail is removed. */
  lemma StripFront(s: string)
    requires |s| > 0 && !IsSpace(s[0])
    ensures var r := Strip(s); 0 < |r| && r == s[..|r|] && AllSpace(s[|r|..])
  {
    LStripSpec(s);
    assert LStrip(s) == s;
    RStripSpec(s);
  }

  /** lstrip() removes exactly a whitespace prefix in front of a character
      that is not whitespace. */
  lemma {:induction false} LStripPadded(pre: string, t: string)
    requires AllSpace(pre) && (t == [] || !IsSpace(t[0]))
    ensures LStrip(pre + t) == t
  {
    if pre == [] {
      assert pre + t == t;
    } else {
      assert (pre + t)[0] == pre[0];
      assert (pre + t)[1..] == pre[1..] + t;
      LStripPadded(pre[1..], t);
    }
  }

  /** rstrip() removes exactly a whitespace suffix behind a character that
      is not whitespace. */
  lemma {:induction false} RStripPadded(t: string, post: string)
    requires AllSpace(post) && (t == [] || !IsSpace(t[|t| - 1]))
    ensures RStrip(t + post) == t
  {
    if post == [] {
      assert t + post == t;
    } else {
      var p' := post[..|post| - 1];
      assert (t + post)[|t + post| - 1] == post[|post| - 1];
      assert (t + post)[..|t + post| - 1] == t + p';
      RStripPadded(t, p');
    }
  }

  /** The padding strip() removes is exactly the whitespace around a
      trimmed core: stripping `pre + m + post` gives back `m`. */
  lemma StripPadded(pre: string, m: string, post: string)
    requires AllSpace(pre) && AllSpace(post) && Trimmed(m)
    ensures Strip(pre + m + post) == m
  {
    if m == [] {
      assert pre + m + post == pre + post;
      LStripPadded(pre + post, []);
      assert pre + post + [] == pre + post;
    } else {
      assert pre + m + post == pre + (m + post);
      LStripPadded(pre, m + post);
      RStripPadded(m, post);
    }
  }

  /** A trimmed string is its own strip(). */
  lemma StripTrimmed(m: string)
    requires Trimmed(m)
    ensures Strip(m) == m
  {
    assert [] + m + [] == m;
    StripPadded([], m, []);
  }

  /** Python's `c.upper()` for one character, where the result can matter to
      a membership test against a list of ASCII capitals: ASCII letters are
      capitalised, and the ten non-ASCII characters whose upper case is
      entirely ASCII map to it. Every other character keeps itself, which
      like its real upper case contains a non-ASCII code point. */
  function UpperChar(c: char): (u: string)
    ensures |u| >= 1
    ensures |u| > 1 ==> u[0] == 'F' || u[0] == 'S'
    ensures c < 128 as char ==> |u| == 1 && ('a' <= c <= 'z' <==> u[0] != c)
    ensures 'a' <= c <= 'z' ==> 'A' <= u[0] <= 'Z' && u[0] as int - 'A' as int == c as int - 'a' as int
  {
    if 'a' <= c <= 'z' then [(c as int - 32) as char]
    else if c == '\U{DF}' then "SS"      // sharp s
    else if c == '\U{131}' then "I"      // dotless i
    else if c == '\U{17F}' then "S"      // long s
    else if c == '\U{FB00}' then "FF"
    else if c == '\U{FB01}' then "FI"
    else if c == '\U{FB02}' then "FL"
    else if c == '\U{FB03}' then "FFI"
    else if c == '\U{FB04}' then "FFL"
    else if c == '\U{FB05}' then "ST"
    else if c == '\U{FB06}' then "ST"
    else [c]
  }

  /** Python's `s.upper()` (see UpperChar for the approximation). */
  function Upper(s: string): (r: string)
    ensures |r| >= |s|
  {
    if s == [] then [] else UpperChar(s[0]) + Upper(s[1..])
  }

  /** Upper casing lengthens a string only by expansions that contain an
      `F` or an `S`. */
  lemma {:induction false} UpperGrowth(s: string)
    ensures var r := Upper(s);
      (forall k :: 0 <= k < |r| ==> r[k] != 'F' && r[k] != 'S') ==> |r| == |s|
  {
    if s != [] {
      var u := UpperChar(s[0]);
      var rest := Upper(s[1..]);
      UpperGrowth(s[1..]);
      assert (u + rest)[0] == u[0];
      assert forall k :: 0 <= k < |rest| ==> rest[k] == (u + rest)[|u| + k];
    }
  }

  /** Python's `s[1:]`. */
  function Tail(s: string): string {
    if |s| == 0 then [] else s[1..]
  }

  /** Python's `s[:n]` for any integer `n`: a negative `n` counts from the
      end, and the bound is clamped to the string. */
  function SliceTo(s: string, n: int): (r: string)
    ensures |r| <= |s| && r == s[..|r|]
    ensures 0 <= n <= |s| ==> |r| == n
    ensures -|s| <= n < 0 ==> |r| == |s| + n
    ensures n < -|s| ==> r == []
    ensures n > |s| ==> r == s
  {
    if n >= 0 then s[..if n <= |s| then n else |s|]
    else s[..if |s| + n >= 0 then |s| + n else 0]
  }

  /** `(a + b)[:-len(b)]`, or `[:len(a)]` when `b` is empty, is `a`. */
  lemma SliceToDropSuffix(a: string, b: string)
    ensures SliceTo(a + b, |a + b| - |b|) == a
  {
    assert (a + b)[..|a|] == a;
  }

  /** Python's `s[::-1]`. */
  function Reverse(s: string): (r: string)
    ensures |r| == |s|
  {
    if s == [] then [] else Reverse(s[1..]) + [s[0]]
  }

  /** Reversal puts the character at position `k` at position
      `|s| - 1 - k`. */
  lemma {:induction false} ReverseIndex(s: string)
    ensures forall k :: 0 <= k < |s| ==> Reverse(s)[k] == s[|s| - 1 - k]
  {
    if s != [] {
      ReverseIndex(s[1..]);
    }
  }

  /** Python's `s.rfind(c)`: the last index holding `c`, or -1. */
  function RFind(s: string, c: char): (r: int)
    ensures -1 <= r < |s|
  {
    if |s| == 0 then -1
    else if s[|s| - 1] == c then |s| - 1
    else RFind(s[..|s| - 1], c)
  }

  /** rfind() finds the last occurrence: `c` is at the answer and nowhere
      after it. */
  lemma {:induction false} RFindSpec(s: string, c: char)
    ensures var r := RFind(s, c);
      && (r >= 0 ==> s[r] == c)
      && forall k :: r < k < |s| ==> s[k] != c
  {
    if |s| > 0 && s[|s| - 1] != c {
      RFindSpec(s[..|s| - 1], c);
    }
  }

  /** Python's `s.replace(c, t)` for a one-character pattern `c`. */
  function Replace(s: string, c: char, t: string): (r: string)
    ensures |t| <= 1 ==> |r| <= |s|
  {
    if s == [] then []
    else (if s[0] == c then t else [s[0]]) + Replace(s[1..], c, t)
  }

  /** Replacing never brings in a character that was in neither the text
      nor the replacement, and it leaves no pattern character behind unless
      the replacement holds one. */
  lemma {:induction false} ReplaceMembers(s: string, c: char, t: string, x: char)
    ensures x in Replace(s, c, t) ==> (x in s && x != c) || (x in t && c in s)
  {
    if s != [] {
      ReplaceMembers(s[1..], c, t, x);
    }
  }

  /** Replacing a character that does not occur changes nothing. */
  lemma {:induction false} ReplaceAbsent(s: string, c: char, t: string)
    requires c !in s
    ensures Replace(s, c, t) == s
  {
    if s != [] {
      ReplaceAbsent(s[1..], c, t);
      assert s == [s[0]] + s[1..];
    }
  }

  /** Replacing a character acts on each part of a concatenation separately. */
  lemma {:induction false} ReplaceAppend(a: string, b: string, c: char, t: string)
    ensures Replace(a + b, c, t) == Replace(a, c, t) + Replace(b, c, t)
  {
    if a != [] {
      assert (a + b)[1..] == a[1..] + b;
      ReplaceAppend(a[1..], b, c, t);
    } else {
      assert a + b == b;
    }
  }
}
