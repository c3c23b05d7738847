/** The Python string built-ins that the fetching code relies on: str.isspace,
    str.strip, str.splitlines, str.split(sep), sep.join and slicing s[:n].
    Strings are sequences of Unicode scalar values. */
module PyStrings {

  /** str.isspace for one character: the characters Python strips by default. */
  predicate IsSpace(c: char) {
    || c == ' '
    || ('\t' <= c <= '\r')
    || ('\U{1C}' <= c <= '\U{1F}')
    || c == '\U{85}' || c == '\U{A0}' || c == '\U{1680}'
    || ('\U{2000}' <= c <= '\U{200A}')
    || c == '\U{2028}' || c == '\U{2029}' || c == '\U{202F}' || c == '\U{205F}' || c == '\U{3000}'
  }

  /** The line boundaries str.splitlines recognises ("\r\n" counts as one boundary). */
  predicate IsLineBreak(c: char) {
    || ('\n' <= c <= '\r')
    || ('\U{1C}' <= c <= '\U{1E}')
    || c == '\U{85}' || c == '\U{2028}' || c == '\U{2029}'
  }

  /** Every character of s[lo..hi] is whitespace. */
  predicate SpaceBetween(s: string, lo: int, hi: int)
    requires 0 <= lo <= hi <= |s|
  {
    forall i :: lo <= i < hi ==> IsSpace(s[i])
  }

  predicate AllSpace(s: string) {
    SpaceBetween(s, 0, |s|)
  }

  predicate NoLineBreak(s: string) {
    forall i :: 0 <= i < |s| ==> !IsLineBreak(s[i])
  }

  predicate DoubleSpaceAt(s: string, i: int) {
    0 <= i && i + 1 < |s| && s[i] == ' ' && s[i + 1] == ' '
  }

  predicate NoDoubleSpace(s: string) {
    forall i :: 0 <= i < |s| ==> !DoubleSpaceAt(s, i)
  }

  /** No whitespace at either end: what str.strip returns. */
  predicate Stripped(s: string) {
    |s| == 0 || (!IsSpace(s[0]) && !IsSpace(s[|s| - 1]))
  }

  /** The first index at or after i that holds no whitespace, or |s|. */
  function SkipSpace(s: string, i: nat): (k: nat)
    requires i <= |s|
    ensures i <= k <= |s| && SpaceBetween(s, i, k)
    ensures k < |s| ==> !IsSpace(s[k])
    decreases |s| - i
  {
    if i < |s| && IsSpace(s[i]) then SkipSpace(s, i + 1) else i
  }

  /** The least k with lo <= k <= j such that s[k..j] is all whitespace. */
  function SkipSpaceBack(s: string, lo: nat, j: nat): (k: nat)
    requires lo <= j <= |s|
    ensures lo <= k <= j && SpaceBetween(s, k, j)
    ensures lo < k ==> !IsSpace(s[k - 1])
    decreases j
  {
    if lo < j && IsSpace(s[j - 1]) then SkipSpaceBack(s, lo, j - 1) else j
  }

  /** Where the text kept by str.strip starts in s. */
  function StripStart(s: string): (a: nat)
    ensures a <= |s|
  {
    SkipSpace(s, 0)
  }

  /** Where the text kept by str.strip ends in s. */
  function StripEnd(s: string): (b: nat)
    ensures StripStart(s) <= b <= |s|
  {
    SkipSpaceBack(s, StripStart(s), |s|)
  }

  /** str.strip(): the part of s between its leading and its trailing
      whitespace, which has no whitespace at either end. */
  function Strip(s: string): (r: string)
    ensures Stripped(r)
    ensures r == s[StripStart(s)..StripEnd(s)]
    ensures SpaceBetween(s, 0, StripStart(s)) && SpaceBetween(s, StripEnd(s), |s|)
  {
    s[StripStart(s)..StripEnd(s)]
  }

  /** The characters of s that are not whitespace, in order. */
  function NonSpace(s: string): string {
    if s == [] then [] else (if IsSpace(s[0]) then [] else [s[0]]) + NonSpace(s[1..])
  }

  /** NonSpace of each string of a list, concatenated. */
  function NonSpaceOfAll(ss: seq<string>): string {
    if ss == [] then [] else NonSpace(ss[0]) + NonSpaceOfAll(ss[1..])
  }

  lemma {:induction false} NonSpaceConcat(a: string, b: string)
    ensures NonSpace(a + b) == NonSpace(a) + NonSpace(b)
  {
    if a == [] {
      assert a + b == b;
    } else {
      assert (a + b)[1..] == a[1..] + b;
      NonSpaceConcat(a[1..], b);
    }
  }

  lemma {:induction false} NonSpaceOfAllConcat(a: seq<string>, b: seq<string>)
    ensures NonSpaceOfAll(a + b) == NonSpaceOfAll(a) + NonSpaceOfAll(b)
  {
    if a == [] {
      assert a + b == b;
    } else {
      assert (a + b)[1..] == a[1..] + b;
      NonSpaceOfAllConcat(a[1..], b);
    }
  }

  /** A string has no non-space character exactly when it is all whitespace. */
  lemma {:induction false} NonSpaceEmpty(s: string)
    ensures NonSpace(s) == [] <==> AllSpace(s)
  {
    if s != [] {
      NonSpaceEmpty(s[1..]);
      assert AllSpace(s) <==> IsSpace(s[0]) && AllSpace(s[1..]) by {
        if IsSpace(s[0]) && AllSpace(s[1..]) {
          forall i | 0 <= i < |s| ensures IsSpace(s[i]) {
            if i > 0 { assert s[i] == s[1..][i - 1]; }
          }
        }
      }
    }
  }

  /** Cutting s at lo and hi: the outer parts are whitespace, so only the
      middle part contributes non-space characters. */
  lemma NonSpaceOfMiddle(s: string, lo: nat, hi: nat)
    requires lo <= hi <= |s|
    requires SpaceBetween(s, 0, lo) && SpaceBetween(s, hi, |s|)
    ensures NonSpace(s) == NonSpace(s[lo..hi])
  {
    assert NonSpace(s[..lo]) == [] by {
      SpaceRunNonSpace(s, 0, lo);
      assert s[0..lo] == s[..lo];
    }
    assert NonSpace(s[hi..]) == [] by {
      SpaceRunNonSpace(s, hi, |s|);
      assert s[hi..|s|] == s[hi..];
    }
    calc {
      NonSpace(s);
    == { NonSpaceSplit(s, hi); }
      NonSpace(s[..hi]) + NonSpace(s[hi..]);
    == { NonSpacePrefixSplit(s, lo, hi); }
      NonSpace(s[..lo]) + NonSpace(s[lo..hi]) + NonSpace(s[hi..]);
    ==
      [] + NonSpace(s[lo..hi]) + [];
    }
    assert [] + NonSpace(s[lo..hi]) + [] == NonSpace(s[lo..hi]);
  }

  /** str.strip removes whitespace only. */
  lemma StripKeepsNonSpace(s: string)
    ensures NonSpace(Strip(s)) == NonSpace(s)
  {
    NonSpaceOfMiddle(s, StripStart(s), StripEnd(s));
  }

  /** str.strip leaves an already stripped string alone. */
  lemma StripStripped(s: string)
    requires Stripped(s)
    ensures Strip(s) == s
  {
  }

  /** What str.strip returns is a piece of its input, so properties of every
      character or of every adjacent pair carry over. */
  lemma StripKeepsClean(s: string)
    ensures NoLineBreak(s) ==> NoLineBreak(Strip(s))
    ensures NoDoubleSpace(s) ==> NoDoubleSpace(Strip(s))
  {
    var r, a := Strip(s), StripStart(s);
    if NoDoubleSpace(s) {
      forall i | 0 <= i < |r| ensures !DoubleSpaceAt(r, i) {
        assert !DoubleSpaceAt(s, a + i);
      }
    }
  }

  /** Python's slice s[:n], including a negative n counting from the end. */
  function SliceTo<T>(s: seq<T>, n: int): (r: seq<T>)
    ensures |r| <= |s| && r == s[..|r|]
    ensures 0 <= n ==> |r| == if n < |s| then n else |s|
    ensures n < 0 ==> |r| == if -n < |s| then |s| + n else 0
  {
    if 0 <= n then (if n < |s| then s[..n] else s)
    else (if -n < |s| then s[..|s| + n] else [])
  }

  /** The first index at or after i holding a line boundary, or |s|. */
  function LineEnd(s: string, i: nat): (k: nat)
    requires i <= |s|
    ensures i <= k <= |s|
    ensures forall j :: i <= j < k ==> !IsLineBreak(s[j])
    ensures k < |s| ==> IsLineBreak(s[k])
    decreases |s| - i
  {
    if i == |s| || IsLineBreak(s[i]) then i else LineEnd(s, i + 1)
  }

  /** Length of the line boundary at k: 2 for "\r\n", 1 otherwise. */
  function BreakLength(s: string, k: nat): (n: nat)
    requires k < |s|
    ensures k + n <= |s|
  {
    if s[k] == '\r' && k + 1 < |s| && s[k + 1] == '\n' then 2 else 1
  }

  /** str.splitlines(): the lines of s without their boundaries; a final
      boundary does not start an empty last line, and "" has no lines. */
  function SplitLines(s: string): seq<string>
    decreases |s|
  {
    if s == [] then []
    else
      var k := LineEnd(s, 0);
      if k == |s| then [s] else [s[..k]] + SplitLines(s[k + BreakLength(s, k)..])
  }

  /** The first index at or after i where "  " starts, or |s|. */
  function FindDoubleSpace(s: string, i: nat): (k: nat)
    requires i <= |s|
    ensures i <= k <= |s|
    ensures k < |s| ==> DoubleSpaceAt(s, k)
    ensures forall j :: i <= j < k ==> !DoubleSpaceAt(s, j)
    decreases |s| - i
  {
    if i + 1 >= |s| then |s|
    else if s[i] == ' ' && s[i + 1] == ' ' then i
    else FindDoubleSpace(s, i + 1)
  }

  /** str.split("  "): the pieces between non-overlapping occurrences of two
      spaces, found left to right; there is always at least one piece. */
  function SplitOnDoubleSpace(s: string): seq<string>
    decreases |s|
  {
    var k := FindDoubleSpace(s, 0);
    if k == |s| then [s] else [s[..k]] + SplitOnDoubleSpace(s[k + 2..])
  }

  /** sep.join(ss). */
  function Join(sep: string, ss: seq<string>): string {
    if |ss| == 0 then "" else if |ss| == 1 then ss[0] else ss[0] + sep + Join(sep, ss[1..])
  }

  /** The line boundaries str.splitlines removes, in order: each is "\r\n" or
      one boundary character. */
  function LineBoundaries(s: string): seq<string>
    decreases |s|
  {
    if s == [] then []
    else
      var k := LineEnd(s, 0);
      if k == |s| then [] else [s[k..k + BreakLength(s, k)]] + LineBoundaries(s[k + BreakLength(s, k)..])
  }

  /** The lines with boundary i put back after line i. */
  function Interleave(lines: seq<string>, bounds: seq<string>): string
    requires |bounds| <= |lines|
  {
    if lines == [] then ""
    else if bounds == [] then lines[0] + Interleave(lines[1..], [])
    else lines[0] + bounds[0] + Interleave(lines[1..], bounds[1..])
  }

  /** Every line str.splitlines returns is free of line boundaries. */
  lemma {:induction false} SplitLinesNoBreak(s: string)
    ensures forall i :: 0 <= i < |SplitLines(s)| ==> NoLineBreak(SplitLines(s)[i])
    decreases |s|
  {
    if s != [] {
      var k := LineEnd(s, 0);
      if k < |s| {
        SplitLinesNoBreak(s[k + BreakLength(s, k)..]);
      }
    }
  }

  /** The line boundary at k is whitespace. */
  lemma BreakIsSpace(s: string, k: nat)
    requires k < |s| && IsLineBreak(s[k])
    ensures SpaceBetween(s, k, k + BreakLength(s, k))
  {
  }

  /** Cutting s at k. */
  lemma NonSpaceSplit(s: string, k: nat)
    requires k <= |s|
    ensures NonSpace(s) == NonSpace(s[..k]) + NonSpace(s[k..])
  {
    CutJoins(s, k);
    NonSpaceOfParts(s[..k], s[k..], s);
  }

  /** s[:k] + s[k:] == s. */
  lemma CutJoins(s: string, k: nat)
    requires k <= |s|
    ensures s[..k] + s[k..] == s
  {
  }

  /** NonSpaceConcat for a string already known to be a + b. */
  lemma NonSpaceOfParts(a: string, b: string, s: string)
    requires a + b == s
    ensures NonSpace(s) == NonSpace(a) + NonSpace(b)
  {
    NonSpaceConcat(a, b);
  }

  /** A whitespace run has no non-space characters. */
  lemma SpaceRunNonSpace(s: string, lo: nat, hi: nat)
    requires lo <= hi <= |s| && SpaceBetween(s, lo, hi)
    ensures NonSpace(s[lo..hi]) == []
  {
    assert AllSpace(s[lo..hi]);
    NonSpaceEmpty(s[lo..hi]);
  }

  /** Cutting the prefix s[..hi] at lo. */
  lemma NonSpacePrefixSplit(s: string, lo: nat, hi: nat)
    requires lo <= hi <= |s|
    ensures NonSpace(s[..hi]) == NonSpace(s[..lo]) + NonSpace(s[lo..hi])
  {
    NonSpaceSplit(s[..hi], lo);
    assert s[..hi][..lo] == s[..lo];
    assert s[..hi][lo..] == s[lo..hi];
  }

  /** Cutting s into a head, a whitespace separator s[lo..hi] and a tail. */
  lemma NonSpaceAroundSeparator(s: string, lo: nat, hi: nat)
    requires lo <= hi <= |s|
    requires SpaceBetween(s, lo, hi)
    ensures NonSpace(s) == NonSpace(s[..lo]) + NonSpace(s[hi..])
  {
    SpaceRunNonSpace(s, lo, hi);
    NonSpacePrefixSplit(s, lo, hi);
    NonSpaceSplit(s, hi);
    assert NonSpace(s[..lo]) + [] == NonSpace(s[..lo]);
  }

  /** A list of one string. */
  lemma NonSpaceOfOne(s: string)
    ensures NonSpaceOfAll([s]) == NonSpace(s)
  {
    assert NonSpaceOfAll([s]) == NonSpace(s) + NonSpaceOfAll([]);
  }

  /** A list with a head string. */
  lemma NonSpaceOfCons(s: string, ss: seq<string>)
    ensures NonSpaceOfAll([s] + ss) == NonSpace(s) + NonSpaceOfAll(ss)
  {
    assert ([s] + ss)[1..] == ss;
  }

  /** str.splitlines drops only line boundaries, which are whitespace. */
  lemma {:induction false} SplitLinesKeepsNonSpace(s: string)
    ensures NonSpaceOfAll(SplitLines(s)) == NonSpace(s)
    decreases |s|
  {
    if s != [] {
      var k := LineEnd(s, 0);
      if k == |s| {
        NonSpaceOfOne(s);
      } else {
        var n := BreakLength(s, k);
        SplitLinesKeepsNonSpace(s[k + n..]);
        NonSpaceOfCons(s[..k], SplitLines(s[k + n..]));
        BreakIsSpace(s, k);
        NonSpaceAroundSeparator(s, k, k + n);
      }
    }
  }

  /** No piece of str.split("  ") contains two spaces in a row, and pieces
      of a string without line boundaries have none either. */
  lemma {:induction false} SplitOnDoubleSpaceClean(s: string)
    ensures forall i :: 0 <= i < |SplitOnDoubleSpace(s)| ==> NoDoubleSpace(SplitOnDoubleSpace(s)[i])
    ensures NoLineBreak(s) ==>
      forall i :: 0 <= i < |SplitOnDoubleSpace(s)| ==> NoLineBreak(SplitOnDoubleSpace(s)[i])
    decreases |s|
  {
    var k := FindDoubleSpace(s, 0);
    forall i | 0 <= i < k ensures !DoubleSpaceAt(s[..k], i) {
      assert !DoubleSpaceAt(s, i);
    }
    if k < |s| {
      SplitOnDoubleSpaceClean(s[k + 2..]);
    }
  }

  /** str.split("  ") drops only spaces: the non-space characters are kept in order. */
  lemma {:induction false} SplitOnDoubleSpaceKeepsNonSpace(s: string)
    ensures NonSpaceOfAll(SplitOnDoubleSpace(s)) == NonSpace(s)
    decreases |s|
  {
    var k := FindDoubleSpace(s, 0);
    if k == |s| {
      NonSpaceOfOne(s);
    } else {
      SplitOnDoubleSpaceKeepsNonSpace(s[k + 2..]);
      NonSpaceOfCons(s[..k], SplitOnDoubleSpace(s[k + 2..]));
      NonSpaceAroundSeparator(s, k, k + 2);
    }
  }

  /** " ".join adds only spaces. */
  lemma {:induction false} JoinSpaceKeepsNonSpace(ss: seq<string>)
    ensures NonSpace(Join(" ", ss)) == NonSpaceOfAll(ss)
  {
    if |ss| == 1 {
      NonSpaceOfOne(ss[0]);
    } else if |ss| > 1 {
      JoinSpaceKeepsNonSpace(ss[1..]);
      NonSpaceConcat(ss[0] + " ", Join(" ", ss[1..]));
      NonSpaceConcat(ss[0], " ");
      assert NonSpace(" ") == [] + NonSpace("");
    }
  }

  /** str.split("  ") always gives at least one piece. */
  lemma SplitOnDoubleSpaceNonEmpty(s: string)
    ensures |SplitOnDoubleSpace(s)| >= 1
  {
  }

  /** "  ".join(s.split("  ")) == s: str.split removes exactly the separators. */
  lemma {:induction false} SplitOnDoubleSpaceJoin(s: string)
    ensures Join("  ", SplitOnDoubleSpace(s)) == s
    decreases |s|
  {
    var k := FindDoubleSpace(s, 0);
    if k < |s| {
      var rest := SplitOnDoubleSpace(s[k + 2..]);
      SplitOnDoubleSpaceJoin(s[k + 2..]);
      SplitOnDoubleSpaceNonEmpty(s[k + 2..]);
      assert SplitOnDoubleSpace(s) == [s[..k]] + rest;
      assert ([s[..k]] + rest)[1..] == rest;
      assert s[k..k + 2] == "  ";
      assert s == s[..k] + "  " + s[k + 2..];
    }
  }

  /** The first line of s, when a boundary follows it, and the lines after it. */
  lemma SplitLinesCons(s: string, k: nat, n: nat)
    requires s != [] && k == LineEnd(s, 0) && k < |s| && n == BreakLength(s, k)
    ensures |SplitLines(s)| == 1 + |SplitLines(s[k + n..])|
    ensures SplitLines(s)[0] == s[..k] && SplitLines(s)[1..] == SplitLines(s[k + n..])
  {
  }

  /** The first boundary of s and the boundaries after it. */
  lemma LineBoundariesCons(s: string, k: nat, n: nat)
    requires s != [] && k == LineEnd(s, 0) && k < |s| && n == BreakLength(s, k)
    ensures |LineBoundaries(s)| == 1 + |LineBoundaries(s[k + n..])|
    ensures LineBoundaries(s)[0] == s[k..k + n] && LineBoundaries(s)[1..] == LineBoundaries(s[k + n..])
  {
  }

  /** str.splitlines removes at most one boundary per line. */
  lemma {:induction false} LineBoundariesFewer(s: string)
    ensures |LineBoundaries(s)| <= |SplitLines(s)|
    decreases |s|
  {
    if s != [] && LineEnd(s, 0) < |s| {
      var k := LineEnd(s, 0);
      var n := BreakLength(s, k);
      LineBoundariesFewer(s[k + n..]);
      SplitLinesCons(s, k, n);
      LineBoundariesCons(s, k, n);
    } else {
      assert LineBoundaries(s) == [];
    }
  }

  /** Every boundary str.splitlines removes is "\r\n" or one boundary character. */
  lemma {:induction false} LineBoundariesShape(s: string)
    ensures forall i :: 0 <= i < |LineBoundaries(s)| ==>
      LineBoundaries(s)[i] == "\r\n" || (|LineBoundaries(s)[i]| == 1 && IsLineBreak(LineBoundaries(s)[i][0]))
    decreases |s|
  {
    if s != [] && LineEnd(s, 0) < |s| {
      var k := LineEnd(s, 0);
      var n := BreakLength(s, k);
      var bounds, rest := LineBoundaries(s), LineBoundaries(s[k + n..]);
      LineBoundariesShape(s[k + n..]);
      LineBoundariesCons(s, k, n);
      assert bounds[0] == "\r\n" || (|bounds[0]| == 1 && IsLineBreak(bounds[0][0])) by {
        assert n == 2 ==> s[k..k + n] == "\r\n";
      }
      forall i | 1 <= i < |bounds|
        ensures bounds[i] == "\r\n" || (|bounds[i]| == 1 && IsLineBreak(bounds[i][0]))
      {
        assert bounds[i] == rest[i - 1];
      }
    } else {
      assert LineBoundaries(s) == [];
    }
  }

  /** s without a line boundary is one line. */
  lemma SplitLinesLast(s: string)
    requires s != [] && LineEnd(s, 0) == |s|
    ensures |SplitLines(s)| == 1 && SplitLines(s)[0] == s && LineBoundaries(s) == []
  {
  }

  /** Interleaving gives s when the first line and boundary are s's first
      two parts and the rest interleaves to what follows them. */
  lemma InterleaveFront(s: string, k: nat, n: nat, lines: seq<string>, bounds: seq<string>)
    requires k + n <= |s| && |bounds| <= |lines| && bounds != []
    requires lines[0] == s[..k] && bounds[0] == s[k..k + n]
    requires Interleave(lines[1..], bounds[1..]) == s[k + n..]
    ensures Interleave(lines, bounds) == s
  {
    assert Interleave(lines, bounds) == lines[0] + bounds[0] + Interleave(lines[1..], bounds[1..]);
    assert s[..k] + s[k..k + n] + s[k + n..] == s;
  }

  /** One step of SplitLinesRoundTrip: the first line and boundary, then the rest. */
  lemma RoundTripStep(s: string, k: nat, n: nat)
    requires s != [] && k == LineEnd(s, 0) && k < |s| && n == BreakLength(s, k)
    requires |LineBoundaries(s[k + n..])| <= |SplitLines(s[k + n..])|
    requires Interleave(SplitLines(s[k + n..]), LineBoundaries(s[k + n..])) == s[k + n..]
    ensures |LineBoundaries(s)| <= |SplitLines(s)|
    ensures Interleave(SplitLines(s), LineBoundaries(s)) == s
  {
    SplitLinesCons(s, k, n);
    LineBoundariesCons(s, k, n);
    InterleaveFront(s, k, n, SplitLines(s), LineBoundaries(s));
  }

  /** The lines of str.splitlines with the boundaries put back between them
      give s again: str.splitlines removes exactly the line boundaries. */
  lemma {:induction false} SplitLinesRoundTrip(s: string)
    ensures |LineBoundaries(s)| <= |SplitLines(s)|
    ensures Interleave(SplitLines(s), LineBoundaries(s)) == s
    decreases |s|
  {
    if s != [] {
      var k := LineEnd(s, 0);
      if k == |s| {
        SplitLinesLast(s);
        var lines := SplitLines(s);
        assert Interleave(lines, []) == lines[0] + Interleave(lines[1..], []);
      } else {
        var n := BreakLength(s, k);
        SplitLinesRoundTrip(s[k + n..]);
        RoundTripStep(s, k, n);
      }
    }
  }
}
