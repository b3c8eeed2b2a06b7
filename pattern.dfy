/**
  * The default chapter pattern `第(\d+)章[:：](.+)` scanned globally, as
  * `parseText` scans it with `exec` and the `g` flag: each search starts where
  * the previous match ended and takes the leftmost match from there. `\d`
  * is an ASCII digit and `.` any character but a line terminator; since the
  * digits are followed by `章` and nothing follows `.+`, both repetitions
  * take their longest run.
  */
module DefaultPattern {
  import opened Wrappers
  import opened Strings
  import opened Chapters

  predicate IsDigit(c: char) {
    '0' <= c <= '9'
  }

  predicate IsColon(c: char) {
    c == ':' || c == '：'
  }

  /** Length of the run of ASCII digits starting at `i`. */
  function DigitRun(text: string, i: nat): (n: nat)
    requires i <= |text|
    ensures i + n <= |text|
    ensures forall j :: i <= j < i + n ==> IsDigit(text[j])
    ensures i + n == |text| || !IsDigit(text[i + n])
    decreases |text| - i
  {
    if i < |text| && IsDigit(text[i]) then 1 + DigitRun(text, i + 1) else 0
  }

  /** Length of the run of non-line-terminator characters starting at `i`. */
  function LineRun(text: string, i: nat): (n: nat)
    requires i <= |text|
    ensures i + n <= |text|
    ensures forall j :: i <= j < i + n ==> !IsLineTerminator(text[j])
    ensures i + n == |text| || IsLineTerminator(text[i + n])
    decreases |text| - i
  {
    if i < |text| && !IsLineTerminator(text[i]) then 1 + LineRun(text, i + 1) else 0
  }

  /** A run of `n` digits at `i` followed by a non-digit (or the end) is the
      digit run at `i`. */
  lemma {:induction false} DigitRunExact(text: string, i: nat, n: nat)
    requires i + n <= |text|
    requires forall j :: i <= j < i + n ==> IsDigit(text[j])
    requires i + n == |text| || !IsDigit(text[i + n])
    ensures DigitRun(text, i) == n
    decreases n
  {
    if n > 0 {
      DigitRunExact(text, i + 1, n - 1);
    }
  }

  /** A run of `n` non-terminators at `i` ending at a terminator (or the end)
      is the line run at `i`. */
  lemma {:induction false} LineRunExact(text: string, i: nat, n: nat)
    requires i + n <= |text|
    requires forall j :: i <= j < i + n ==> !IsLineTerminator(text[j])
    requires i + n == |text| || IsLineTerminator(text[i + n])
    ensures LineRun(text, i) == n
    decreases n
  {
    if n > 0 {
      LineRunExact(text, i + 1, n - 1);
    }
  }

  /** Where a heading match ends: after `第`, the digits, `章`, the colon and the title. */
  function HeadEnd(m: Match): nat {
    m.start + 3 + |m.number| + |m.title|
  }

  /** Declarative reading of the pattern: `m` is a match of it at `m.start`. */
  predicate IsHeading(text: string, m: Match) {
    var p := m.start;
    var q := p + 1 + |m.number|;
    && HeadEnd(m) <= |text|
    && text[p] == '第'
    && 0 < |m.number| && text[p + 1..q] == m.number
    && (forall j :: 0 <= j < |m.number| ==> IsDigit(m.number[j]))
    && text[q] == '章' && IsColon(text[q + 1])
    && 0 < |m.title| && text[q + 2..HeadEnd(m)] == m.title
    && (forall j :: 0 <= j < |m.title| ==> !IsLineTerminator(m.title[j]))
    && (HeadEnd(m) == |text| || IsLineTerminator(text[HeadEnd(m)]))
  }

  /** The match of the pattern starting exactly at `p`, if any. */
  function HeadingAt(text: string, p: nat): (r: Option<Match>)
    requires p <= |text|
    ensures r.Some? ==> r.value.start == p && p < HeadEnd(r.value) <= |text|
  {
    if p < |text| && text[p] == '第' then
      var d := DigitRun(text, p + 1);
      var q := p + 1 + d;
      if 0 < d && q + 1 < |text| && text[q] == '章' && IsColon(text[q + 1]) then
        var l := LineRun(text, q + 2);
        if 0 < l then Some(Match(p, text[p + 1..q], text[q + 2..q + 2 + l])) else None
      else None
    else None
  }

  /** What `HeadingAt` finds is a match of the pattern. */
  lemma HeadingAtSound(text: string, p: nat)
    requires p <= |text|
    ensures HeadingAt(text, p).Some? ==> IsHeading(text, HeadingAt(text, p).value)
  {
    if HeadingAt(text, p).Some? {
      var m := HeadingAt(text, p).value;
      var d := DigitRun(text, p + 1);
      var l := LineRun(text, p + 3 + d);
      assert |m.number| == d && |m.title| == l;
      assert HeadEnd(m) == p + 3 + d + l;
    }
  }

  /** The digits of a match are the whole digit run after its `第`. */
  lemma HeadingDigits(text: string, m: Match)
    requires IsHeading(text, m)
    ensures DigitRun(text, m.start + 1) == |m.number|
  {
    forall j | m.start + 1 <= j < m.start + 1 + |m.number|
      ensures IsDigit(text[j])
    {
      assert text[j] == m.number[j - (m.start + 1)];
    }
    DigitRunExact(text, m.start + 1, |m.number|);
  }

  /** The title of a match is the whole rest of its line. */
  lemma HeadingTitle(text: string, m: Match)
    requires IsHeading(text, m)
    ensures LineRun(text, m.start + 3 + |m.number|) == |m.title|
  {
    var i := m.start + 3 + |m.number|;
    forall j | i <= j < HeadEnd(m)
      ensures !IsLineTerminator(text[j])
    {
      assert text[j] == m.title[j - i];
    }
    LineRunExact(text, i, |m.title|);
  }

  /** Every match of the pattern is the one `HeadingAt` finds at its start. */
  lemma HeadingAtComplete(text: string, m: Match)
    requires IsHeading(text, m)
    ensures HeadingAt(text, m.start) == Some(m)
  {
    HeadingDigits(text, m);
    HeadingTitle(text, m);
  }

  /** The global scan from search position `from`. */
  function ScanFrom(text: string, from: nat): (r: seq<Match>)
    requires from <= |text|
    ensures forall k :: 0 <= k < |r| ==> from <= r[k].start < |text|
    decreases |text| - from
  {
    if from == |text| then []
    else match HeadingAt(text, from)
      case Some(m) => [m] + ScanFrom(text, HeadEnd(m))
      case None => ScanFrom(text, from + 1)
  }

  /** The match list of the default pattern over the whole text. */
  function DefaultScan(text: string): seq<Match> {
    ScanFrom(text, 0)
  }

  /** Every listed match is the match of the pattern found at its start. */
  predicate AllHeadings(text: string, r: seq<Match>) {
    forall k :: 0 <= k < |r| ==> r[k].start <= |text| && HeadingAt(text, r[k].start) == Some(r[k])
  }

  /** Each listed match starts at or after the end of the previous one. */
  predicate Disjoint(r: seq<Match>) {
    forall k :: 0 <= k < |r| - 1 ==> HeadEnd(r[k]) <= r[k + 1].start
  }

  /** Every match the scan reports is a match of the pattern. */
  lemma {:induction false} ScanSound(text: string, from: nat)
    requires from <= |text|
    ensures AllHeadings(text, ScanFrom(text, from))
    decreases |text| - from
  {
    if from < |text| {
      var h := HeadingAt(text, from);
      if h.Some? {
        var rest := ScanFrom(text, HeadEnd(h.value));
        assert ScanFrom(text, from) == [h.value] + rest;
        ScanSound(text, HeadEnd(h.value));
      } else {
        assert ScanFrom(text, from) == ScanFrom(text, from + 1);
        ScanSound(text, from + 1);
      }
    }
  }

  /** No match of the pattern starts in `[lo, hi)`. */
  predicate NoHeadingIn(text: string, lo: nat, hi: nat) {
    forall p :: lo <= p < hi && p <= |text| ==> HeadingAt(text, p).None?
  }

  /** Nothing the scan skips is a match: not the text before the first
      reported match, not the text between one match's end and the next
      match's start, and not the text after the last match. */
  predicate GapsFree(text: string, from: nat, r: seq<Match>) {
    && (|r| == 0 ==> NoHeadingIn(text, from, |text|))
    && (|r| > 0 ==> NoHeadingIn(text, from, r[0].start) && NoHeadingIn(text, HeadEnd(r[|r| - 1]), |text|))
    && (forall k :: 0 <= k < |r| - 1 ==> NoHeadingIn(text, HeadEnd(r[k]), r[k + 1].start))
  }

  /** A position where no match starts adds nothing to skip. */
  lemma GapsFreeSkip(text: string, from: nat, r: seq<Match>, rest: seq<Match>)
    requires from < |text| && HeadingAt(text, from).None? && r == rest
    requires GapsFree(text, from + 1, rest)
    requires forall k :: 0 <= k < |rest| ==> from + 1 <= rest[k].start
    ensures GapsFree(text, from, r)
  {
  }

  /** A match at the search position, followed by a scan from its end. */
  lemma GapsFreeCons(text: string, from: nat, r: seq<Match>, m: Match, rest: seq<Match>)
    requires m.start == from && HeadEnd(m) <= |text| && r == [m] + rest
    requires GapsFree(text, HeadEnd(m), rest)
    ensures GapsFree(text, from, r)
  {
    forall k | 0 <= k < |r| - 1
      ensures NoHeadingIn(text, HeadEnd(r[k]), r[k + 1].start)
    {
      if k > 0 {
        assert r[k] == rest[k - 1] && r[k + 1] == rest[k];
      }
    }
  }

  /** One step of the scan. */
  lemma ScanFromStep(text: string, from: nat)
    requires from < |text|
    ensures var h := HeadingAt(text, from);
            ScanFrom(text, from) == if h.Some? then [h.value] + ScanFrom(text, HeadEnd(h.value)) else ScanFrom(text, from + 1)
  {
  }

  /** The scan takes the leftmost match each time and misses none: no match
      of the pattern starts where the scan reports none. */
  lemma {:induction false} ScanComplete(text: string, from: nat)
    requires from <= |text|
    ensures GapsFree(text, from, ScanFrom(text, from))
    decreases |text| - from
  {
    if from < |text| {
      ScanFromStep(text, from);
      var h := HeadingAt(text, from);
      if h.Some? {
        ScanComplete(text, HeadEnd(h.value));
        GapsFreeCons(text, from, ScanFrom(text, from), h.value, ScanFrom(text, HeadEnd(h.value)));
      } else {
        ScanComplete(text, from + 1);
        GapsFreeSkip(text, from, ScanFrom(text, from), ScanFrom(text, from + 1));
      }
    }
  }

  /** Matches do not overlap: each starts at or after the end of the previous one. */
  lemma {:induction false} ScanDisjoint(text: string, from: nat)
    requires from <= |text|
    ensures Disjoint(ScanFrom(text, from))
    decreases |text| - from
  {
    if from < |text| {
      var h := HeadingAt(text, from);
      if h.Some? {
        var rest := ScanFrom(text, HeadEnd(h.value));
        assert ScanFrom(text, from) == [h.value] + rest;
        ScanDisjoint(text, HeadEnd(h.value));
      } else {
        assert ScanFrom(text, from) == ScanFrom(text, from + 1);
        ScanDisjoint(text, from + 1);
      }
    }
  }

  /** The scan is well formed, so it can drive `ParseText`. */
  lemma {:induction false} ScanWellFormed(text: string, from: nat)
    requires from <= |text|
    ensures WellFormed(text, ScanFrom(text, from))
    decreases |text| - from
  {
    if from < |text| {
      var h := HeadingAt(text, from);
      if h.Some? {
        var rest := ScanFrom(text, HeadEnd(h.value));
        assert ScanFrom(text, from) == [h.value] + rest;
        ScanWellFormed(text, HeadEnd(h.value));
      } else {
        assert ScanFrom(text, from) == ScanFrom(text, from + 1);
        ScanWellFormed(text, from + 1);
      }
    }
  }

  /** A heading opens with `第`, its digits and `章`, none of them whitespace. */
  lemma HeadingSolid(text: string, m: Match)
    requires IsHeading(text, m)
    ensures forall i :: m.start <= i < m.start + |m.number| + 2 ==> !IsWs(text[i])
    ensures text[m.start..m.start + |m.number| + 2] == ['第'] + m.number + ['章']
  {
    var p, q := m.start, m.start + 1 + |m.number|;
    forall i | p <= i <= q
      ensures !IsWs(text[i])
    {
      if p < i < q {
        assert text[i] == m.number[i - p - 1];
      }
    }
    assert text[p..q + 1] == [text[p]] + text[p + 1..q] + [text[q]];
  }

  /** The heading line of match `k`, trimmed, opens its chapter's content
      when it starts with non-whitespace and ends within the chapter:
      trimming then removes only whitespace at the end of the line. */
  lemma HeadingLineOpensContent(text: string, ms: seq<Match>, k: nat)
    requires WellFormed(text, ms) && k < |ms|
    requires ms[k].start < HeadEnd(ms[k]) <= End(text, ms, k) && !IsWs(text[ms[k].start])
    ensures Offset(ms) + k < |SplitChapters(text, ms)|
    ensures var c := SplitChapters(text, ms)[Offset(ms) + k];
            var h := Trim(text[ms[k].start..HeadEnd(ms[k])]);
            |h| <= |c.content| && c.content[..|h|] == h
  {
    var m := ms[k];
    var line := text[m.start..HeadEnd(m)];
    assert line[0] == text[m.start];
    TrimSolidStart(line);
    var h := Trim(line);
    assert text[m.start + |h| - 1] == line[|h| - 1];
    HeadingOpensContent(text, ms, k, |h|);
    assert text[m.start..m.start + |h|] == line[..|h|];
  }

  /** When match `k` of a well-formed list is a match of the pattern that ends
      before the next one starts, its chapter's content begins with its `第`,
      number and `章`, and indeed with its whole heading line, trimmed. */
  lemma HeadingsOpenContent(text: string, ms: seq<Match>, k: nat)
    requires WellFormed(text, ms) && k < |ms| && IsHeading(text, ms[k])
    requires k + 1 < |ms| ==> HeadEnd(ms[k]) <= ms[k + 1].start
    ensures Offset(ms) + k < |SplitChapters(text, ms)|
    ensures var c := SplitChapters(text, ms)[Offset(ms) + k];
            var h := Trim(text[ms[k].start..HeadEnd(ms[k])]);
            && |ms[k].number| + 2 <= |c.content|
            && c.content[..|ms[k].number| + 2] == ['第'] + ms[k].number + ['章']
            && |h| <= |c.content| && c.content[..|h|] == h
  {
    HeadingSolid(text, ms[k]);
    HeadingOpensContent(text, ms, k, |ms[k].number| + 2);
    HeadingLineOpensContent(text, ms, k);
  }

  /** With the default pattern, the chapter of the `k`-th heading has content
      beginning with that heading's `第`, number and `章`, and with the whole
      heading line, trimmed. */
  lemma DefaultChapterOpensWithHeading(text: string, k: nat)
    requires k < |DefaultScan(text)|
    ensures var ms := DefaultScan(text);
            && WellFormed(text, ms)
            && Offset(ms) + k < |SplitChapters(text, ms)|
            && HeadEnd(ms[k]) <= |text|
            && var c := SplitChapters(text, ms)[Offset(ms) + k];
               var h := Trim(text[ms[k].start..HeadEnd(ms[k])]);
               && |ms[k].number| + 2 <= |c.content|
               && c.content[..|ms[k].number| + 2] == ['第'] + ms[k].number + ['章']
               && |h| <= |c.content| && c.content[..|h|] == h
  {
    var ms := DefaultScan(text);
    ScanSound(text, 0);
    ScanDisjoint(text, 0);
    ScanWellFormed(text, 0);
    assert HeadingAt(text, ms[k].start) == Some(ms[k]);
    HeadingAtSound(text, ms[k].start);
    HeadingsOpenContent(text, ms, k);
  }
}
