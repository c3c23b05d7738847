/** _strip_think_tags of app/llm/openai_client.py: remove every non-greedy
    `<think>…</think>` span (re.sub with DOTALL, so spans cross newlines),
    then strip whitespace. */
module OpenAiClient {
  import opened Wrappers
  import opened PyStrings

  /** "<think>" starts at index i of s. */
  predicate OpenAt(s: string, i: int) {
    0 <= i && i + 7 <= |s| && s[i..i + 7] == "<think>"
  }

  /** "</think>" starts at index k of s. */
  predicate CloseAt(s: string, k: int) {
    0 <= k && k + 8 <= |s| && s[k..k + 8] == "</think>"
  }

  /** A span can start at i: "<think>" there and a "</think>" somewhere after it. */
  ghost predicate Opens(s: string, i: int) {
    OpenAt(s, i) && exists k :: i + 7 <= k && CloseAt(s, k)
  }

  /** s[i..j] is what `<think>.*?</think>` matches at i: it opens at i and ends
      with the first "</think>" after the opening tag. */
  ghost predicate SpanAt(s: string, i: int, j: int) {
    && OpenAt(s, i) && i + 15 <= j && CloseAt(s, j - 8)
    && forall k :: i + 7 <= k < j - 8 ==> !CloseAt(s, k)
  }

  /** The first "</think>" starting at or after from. */
  function FindClose(s: string, from: nat): (k: Option<nat>)
    requires from <= |s|
    ensures k.Some? ==> from <= k.value && CloseAt(s, k.value)
    ensures k.Some? ==> forall j :: from <= j < k.value ==> !CloseAt(s, j)
    ensures k.None? ==> forall j :: from <= j ==> !CloseAt(s, j)
    decreases |s| - from
  {
    if from + 8 > |s| then None
    else if s[from..from + 8] == "</think>" then Some(from)
    else FindClose(s, from + 1)
  }

  /** re.sub(r"<think>.*?</think>", "", s, flags=re.DOTALL): scanning left to
      right, a "<think>" with a later "</think>" is dropped up to the end of
      the first such "</think>", and the scan resumes after it; every other
      character is kept. */
  function RemoveThinkSpans(s: string): (r: string)
    ensures |r| <= |s|
    decreases |s|
  {
    if s == [] then []
    else
      var close := if OpenAt(s, 0) then FindClose(s, 7) else None;
      if close.Some? then RemoveThinkSpans(s[close.value + 8..])
      else [s[0]] + RemoveThinkSpans(s[1..])
  }

  /** _strip_think_tags(text). */
  function StripThinkTags(text: string): (r: string)
    ensures text == "" ==> r == ""
    ensures Stripped(r) && |r| <= |text|
  {
    if text == "" then text else Strip(RemoveThinkSpans(text))
  }

  /** The first "</think>" after from is determined by where the tags are. */
  lemma FindCloseIs(s: string, from: nat, k: nat)
    requires from <= k && CloseAt(s, k)
    requires forall j :: from <= j < k ==> !CloseAt(s, j)
    ensures FindClose(s, from) == Some(k)
  {
  }

  /** One step of the scan that keeps the first character. */
  lemma KeepStep(s: string)
    requires s != []
    requires OpenAt(s, 0) ==> FindClose(s, 7).None?
    ensures RemoveThinkSpans(s) == [s[0]] + RemoveThinkSpans(s[1..])
  {
  }

  /** One step of the scan that drops a span ending at c + 8. */
  lemma DropStep(s: string, c: nat)
    requires OpenAt(s, 0) && FindClose(s, 7) == Some(c)
    ensures RemoveThinkSpans(s) == RemoveThinkSpans(s[c + 8..])
  {
  }

  /** A "<think>" at i of s[n..] is one at i + n of s. */
  lemma OpenShift(s: string, n: nat, i: int)
    requires n <= |s| && 0 <= i
    ensures OpenAt(s[n..], i) <==> OpenAt(s, i + n)
  {
    if i + n + 7 <= |s| { assert s[n..][i..i + 7] == s[i + n..i + n + 7]; }
  }

  /** A "</think>" at k of s[n..] is one at k + n of s. */
  lemma CloseShift(s: string, n: nat, k: int)
    requires n <= |s| && 0 <= k
    ensures CloseAt(s[n..], k) <==> CloseAt(s, k + n)
  {
    if k + n + 8 <= |s| { assert s[n..][k..k + 8] == s[k + n..k + n + 8]; }
  }

  /** A "<think>" at i of s[..n] is one of s that ends by n. */
  lemma OpenPrefix(s: string, n: nat, i: int)
    requires n <= |s|
    ensures OpenAt(s[..n], i) <==> OpenAt(s, i) && i + 7 <= n
  {
    if 0 <= i && i + 7 <= n { assert s[..n][i..i + 7] == s[i..i + 7]; }
  }

  /** A "</think>" at k of s[..n] is one of s that ends by n. */
  lemma ClosePrefix(s: string, n: nat, k: int)
    requires n <= |s|
    ensures CloseAt(s[..n], k) <==> CloseAt(s, k) && k + 8 <= n
  {
    if 0 <= k && k + 8 <= n { assert s[..n][k..k + 8] == s[k..k + 8]; }
  }

  /** No span can start before i in s[1..] when none starts before i + 1 in s. */
  lemma NoOpensInTail(s: string, i: nat)
    requires s != [] && i < |s|
    requires forall p :: 0 <= p < i + 1 ==> !Opens(s, p)
    ensures forall p :: 0 <= p < i ==> !Opens(s[1..], p)
  {
    forall p | 0 <= p < i ensures !Opens(s[1..], p) {
      if Opens(s[1..], p) {
        var k :| p + 7 <= k && CloseAt(s[1..], k);
        OpenShift(s, 1, p);
        CloseShift(s, 1, k);
        assert Opens(s, p + 1);
      }
    }
  }

  /** Where no span can start, the scan keeps the first character. */
  lemma KeepStepAt0(s: string)
    requires s != [] && !Opens(s, 0)
    ensures RemoveThinkSpans(s) == [s[0]] + RemoveThinkSpans(s[1..])
  {
    if OpenAt(s, 0) {
      CloseFoundOpens(s);
    }
    KeepStep(s);
  }

  /** A "<think>" at 0 whose closing tag the scan finds can start a span. */
  lemma CloseFoundOpens(s: string)
    requires OpenAt(s, 0)
    ensures FindClose(s, 7).Some? ==> Opens(s, 0)
  {
    var c := FindClose(s, 7);
    if c.Some? {
      assert 7 <= c.value && CloseAt(s, c.value);
    }
  }

  /** A span at i > 0 is a span at i - 1 of s[1..]. */
  lemma SpanInTail(s: string, i: nat, j: nat)
    requires SpanAt(s, i, j) && 0 < i && j <= |s|
    ensures SpanAt(s[1..], i - 1, j - 1)
  {
    OpenShift(s, 1, i - 1);
    CloseShift(s, 1, j - 9);
    forall k | i + 6 <= k < j - 9 ensures !CloseAt(s[1..], k) {
      CloseShift(s, 1, k);
    }
  }

  /** Without any span to match, nothing is removed. */
  lemma {:induction false} NoSpanKeeps(s: string)
    requires forall i :: 0 <= i < |s| ==> !Opens(s, i)
    ensures RemoveThinkSpans(s) == s
    decreases |s|
  {
    if s != [] {
      KeepStepAt0(s);
      NoOpensInTail(s, |s| - 1);
      NoSpanKeeps(s[1..]);
    }
  }

  /** Input without any "<think>" is only whitespace-stripped. */
  lemma NoOpenOnlyStrips(text: string)
    requires forall i :: 0 <= i < |text| ==> !OpenAt(text, i)
    ensures StripThinkTags(text) == Strip(text)
  {
    NoSpanKeeps(text);
  }

  /** The leftmost span is removed, and the scan carries on right after it, so
      removed spans never overlap; the text before it is kept as it is. */
  lemma {:induction false} RemovesLeftmostSpan(s: string, i: nat, j: nat)
    requires SpanAt(s, i, j) && j <= |s|
    requires forall p :: 0 <= p < i ==> !Opens(s, p)
    ensures RemoveThinkSpans(s) == s[..i] + RemoveThinkSpans(s[j..])
    decreases i, 2
  {
    if i == 0 {
      RemovesSpanAtStart(s, j);
    } else {
      RemovesLaterSpan(s, i, j);
    }
  }

  /** A span at the very start is dropped whole. */
  lemma RemovesSpanAtStart(s: string, j: nat)
    requires SpanAt(s, 0, j) && j <= |s|
    ensures RemoveThinkSpans(s) == RemoveThinkSpans(s[j..])
  {
    FindCloseIs(s, 7, j - 8);
    DropStep(s, j - 8);
  }

  /** Before the leftmost span, the scan keeps one character at a time. */
  lemma {:induction false} RemovesLaterSpan(s: string, i: nat, j: nat)
    requires SpanAt(s, i, j) && j <= |s| && 0 < i
    requires forall p :: 0 <= p < i ==> !Opens(s, p)
    ensures RemoveThinkSpans(s) == s[..i] + RemoveThinkSpans(s[j..])
    decreases i, 1
  {
    RemovesInTail(s, i, j);
    KeepStepAt0(s);
    KeptPrefix(s, i, RemoveThinkSpans(s), RemoveThinkSpans(s[1..]), RemoveThinkSpans(s[j..]));
  }

  /** The same span, seen from s[1..], is the leftmost one there. */
  lemma {:induction false} RemovesInTail(s: string, i: nat, j: nat)
    requires SpanAt(s, i, j) && j <= |s| && 0 < i
    requires forall p :: 0 <= p < i ==> !Opens(s, p)
    ensures RemoveThinkSpans(s[1..]) == s[1..][..i - 1] + RemoveThinkSpans(s[j..])
    decreases i, 0
  {
    NoOpensInTail(s, i - 1);
    SpanInTail(s, i, j);
    RemovesLeftmostSpan(s[1..], i - 1, j - 1);
    SameSlices(s, 1, j);
  }

  /** Keeping the first character and then i - 1 more keeps the first i. */
  lemma KeptPrefix(s: string, i: nat, r: string, r1: string, rest: string)
    requires 0 < i <= |s| && r == [s[0]] + r1 && r1 == s[1..][..i - 1] + rest
    ensures r == s[..i] + rest
  {
    FirstAndRest(s, i);
  }

  /** Cutting s at a and then at i, in either order. */
  lemma SameSlices(s: string, a: nat, i: nat)
    requires a <= i <= |s|
    ensures s[a..][..i - a] == s[..i][a..] && s[a..][i - a..] == s[i..]
  {
  }

  /** s[..i] is its first character followed by s[1..i]. */
  lemma FirstAndRest(s: string, i: nat)
    requires 0 < i <= |s|
    ensures s[..i] == [s[0]] + s[1..][..i - 1]
  {
    assert s[1..][..i - 1] == s[1..i];
    assert s[..i] == s[..1] + s[1..i];
  }

  /** The characters of an opening tag. */
  lemma OpenChars(s: string, i: int)
    requires OpenAt(s, i)
    ensures s[i] == '<' && s[i + 1] == 't' && s[i + 2] == 'h' && s[i + 3] == 'i'
    ensures s[i + 4] == 'n' && s[i + 5] == 'k' && s[i + 6] == '>'
  {
    var t := s[i..i + 7];
    assert t[0] == '<' && t[1] == 't' && t[2] == 'h' && t[3] == 'i' && t[4] == 'n' && t[5] == 'k' && t[6] == '>';
  }

  /** The characters of a closing tag. */
  lemma CloseChars(s: string, k: int)
    requires CloseAt(s, k)
    ensures s[k] == '<' && s[k + 1] == '/' && s[k + 2] == 't' && s[k + 3] == 'h'
    ensures s[k + 4] == 'i' && s[k + 5] == 'n' && s[k + 6] == 'k' && s[k + 7] == '>'
  {
    var t := s[k..k + 8];
    assert t[0] == '<' && t[1] == '/' && t[2] == 't' && t[3] == 'h' && t[4] == 'i' && t[5] == 'n' && t[6] == 'k' && t[7] == '>';
  }

  /** A "</think>" cannot overlap a "<think>": it ends before the opening tag
      starts or starts after it ends. */
  lemma CloseAvoidsOpen(s: string, i: int, k: int)
    requires OpenAt(s, i) && CloseAt(s, k)
    ensures k + 8 <= i || i + 7 <= k
  {
    OpenChars(s, i);
    CloseChars(s, k);
  }

  /** An unclosed "<think>" (no "</think>" after it) is kept, with everything
      after it. */
  lemma {:induction false} KeepsUnclosed(s: string, i: nat)
    requires OpenAt(s, i)
    requires forall k :: i + 7 <= k ==> !CloseAt(s, k)
    ensures RemoveThinkSpans(s) == RemoveThinkSpans(s[..i]) + s[i..]
    decreases i, 2
  {
    forall k | CloseAt(s, k) ensures k + 8 <= i {
      CloseAvoidsOpen(s, i, k);
    }
    if i == 0 {
      forall p | 0 <= p < |s| ensures !Opens(s, p) {
        if OpenAt(s, p) {
          forall k | p + 7 <= k ensures !CloseAt(s, k) { }
        }
      }
      NoSpanKeeps(s);
      assert s[..0] == [] && s[0..] == s;
    } else {
      UnclosedStep(s, i);
    }
  }

  /** The inductive step of KeepsUnclosed, one scan step at a time. */
  lemma UnclosedStep(s: string, i: nat)
    requires 0 < i && OpenAt(s, i)
    requires forall k :: CloseAt(s, k) ==> k + 8 <= i
    ensures RemoveThinkSpans(s) == RemoveThinkSpans(s[..i]) + s[i..]
    decreases i, 1
  {
    var close := if OpenAt(s, 0) then FindClose(s, 7) else None;
    if close.Some? {
      UnclosedDrop(s, i, close.value);
    } else {
      UnclosedKeep(s, i);
    }
  }

  /** The scan drops a span at the start of s, which ends before the unclosed tag. */
  lemma {:induction false} UnclosedDrop(s: string, i: nat, c: nat)
    requires 0 < i && OpenAt(s, i)
    requires forall k :: CloseAt(s, k) ==> k + 8 <= i
    requires OpenAt(s, 0) && FindClose(s, 7) == Some(c)
    ensures RemoveThinkSpans(s) == RemoveThinkSpans(s[..i]) + s[i..]
    decreases i, 0
  {
    var t := s[..i];
    assert c + 8 <= i;
    assert OpenAt(t, 0) && FindClose(t, 7) == Some(c) by {
      OpenPrefix(s, i, 0);
      ClosePrefix(s, i, c);
      forall j | 7 <= j < c ensures !CloseAt(t, j) {
        ClosePrefix(s, i, j);
      }
      FindCloseIs(t, 7, c);
    }
    var u, m := s[c + 8..], i - c - 8;
    assert OpenAt(u, m) && forall k :: m + 7 <= k ==> !CloseAt(u, k) by {
      OpenShift(s, c + 8, m);
      forall k | m + 7 <= k ensures !CloseAt(u, k) {
        CloseShift(s, c + 8, k);
      }
    }
    calc {
      RemoveThinkSpans(s);
    == { DropStep(s, c); }
      RemoveThinkSpans(u);
    == { KeepsUnclosed(u, m); }
      RemoveThinkSpans(u[..m]) + u[m..];
    == { SameSlices(s, c + 8, i); }
      RemoveThinkSpans(t[c + 8..]) + s[i..];
    == { DropStep(t, c); }
      RemoveThinkSpans(t) + s[i..];
    }
  }

  /** The scan keeps the first character of s, which lies before the unclosed tag. */
  lemma {:induction false} UnclosedKeep(s: string, i: nat)
    requires 0 < i && OpenAt(s, i)
    requires forall k :: CloseAt(s, k) ==> k + 8 <= i
    requires OpenAt(s, 0) ==> FindClose(s, 7).None?
    ensures RemoveThinkSpans(s) == RemoveThinkSpans(s[..i]) + s[i..]
    decreases i, 0
  {
    var t, u := s[..i], s[1..];
    assert OpenAt(t, 0) ==> FindClose(t, 7).None? by {
      OpenPrefix(s, i, 0);
      if OpenAt(t, 0) && FindClose(t, 7).Some? {
        ClosePrefix(s, i, FindClose(t, 7).value);
      }
    }
    assert OpenAt(u, i - 1) && forall k :: i + 6 <= k ==> !CloseAt(u, k) by {
      OpenShift(s, 1, i - 1);
      forall k | i + 6 <= k ensures !CloseAt(u, k) {
        CloseShift(s, 1, k);
      }
    }
    calc {
      RemoveThinkSpans(s);
    == { KeepStep(s); }
      [s[0]] + RemoveThinkSpans(u);
    == { KeepsUnclosed(u, i - 1); }
      [s[0]] + (RemoveThinkSpans(u[..i - 1]) + u[i - 1..]);
    == { SameSlices(s, 1, i); }
      [s[0]] + (RemoveThinkSpans(t[1..]) + s[i..]);
    == { assert t[0] == s[0]; KeepStep(t); }
      RemoveThinkSpans(t) + s[i..];
    }
  }

  /** With DOTALL the body of a span may hold any characters, line breaks
      included, as long as no "</think>" starts inside it. */
  lemma SpanBodyIsAnyText(body: string, rest: string)
    requires forall k :: 7 <= k < 7 + |body| ==> !CloseAt("<think>" + body + "</think>" + rest, k)
    ensures StripThinkTags("<think>" + body + "</think>" + rest) == Strip(RemoveThinkSpans(rest))
  {
    var s := "<think>" + body + "</think>" + rest;
    var j := |body| + 15;
    assert SpanAt(s, 0, j) by {
      assert s[..7] == "<think>";
      assert s[j - 8..j] == "</think>";
    }
    RemovesSpanAtStart(s, j);
    assert s[j..] == rest;
  }
}
