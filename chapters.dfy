/**
  * Chapter splitting (`parseText` in converter-script.js).
  *
  * The global scan of the chapter pattern is taken as its list of match
  * records; `ParseText` replays the loop of `parseText` over those records,
  * which pushes chapter records and overwrites the content of the last one,
  * and is proved equal to the reference definition `SplitChapters`. Module
  * `DefaultPattern` gives a concrete scanner for the default pattern
  * `第(\d+)章[:：](.+)`.
  */
module Chapters {
  import opened Wrappers
  import opened Strings

  /** One result of the global `exec` scan: where the heading match starts,
      capture group 1 (the number) and capture group 2 (the raw title). */
  datatype Match = Match(start: nat, number: string, title: string)

  /** A chapter record; the preamble and the fallback chapter carry no start. */
  datatype Chapter = Chapter(number: string, title: string, content: string, startIndex: Option<nat>)

  /** What `parseText` returns: the document title and its chapters. */
  datatype Parsed = Parsed(title: string, chapters: seq<Chapter>)

  const UntitledTitle := "タイトルなし"
  const PreambleNumber := "0"
  const PreambleTitle := "序章"
  const FallbackNumber := "1"
  const FallbackTitle := "テキスト"

  /** What a global scan with a pattern that never matches the empty string
      yields: match starts inside the text and strictly increasing. */
  predicate WellFormed(text: string, ms: seq<Match>) {
    && (forall k :: 0 <= k < |ms| ==> ms[k].start < |text|)
    && (forall j, k :: 0 <= j < k < |ms| ==> ms[j].start < ms[k].start)
  }

  /** The title of the document: the trimmed title input, or a placeholder. */
  function DocumentTitle(titleInput: string): (r: string)
    ensures r != []
    ensures !IsBlank(titleInput) ==> r == Trim(titleInput)
    ensures IsBlank(titleInput) ==> r == UntitledTitle
  {
    TrimEmptyIffBlank(titleInput);
    var t := Trim(titleInput);
    if t != [] then t else UntitledTitle
  }

  /** Where the text of chapter `k` ends: at the next heading, or at the end. */
  function End(text: string, ms: seq<Match>, k: nat): (e: nat)
    requires WellFormed(text, ms) && k < |ms|
    ensures ms[k].start < e <= |text|
  {
    if k + 1 < |ms| then ms[k + 1].start else |text|
  }

  /** The untrimmed text of chapter `k`: from its own heading's start, heading
      line included, up to the next heading's start. */
  function Section(text: string, ms: seq<Match>, k: nat): string
    requires WellFormed(text, ms) && k < |ms|
  {
    text[ms[k].start..End(text, ms, k)]
  }

  /** The chapter record that match `k` produces once it is closed. */
  function ChapterAt(text: string, ms: seq<Match>, k: nat): Chapter
    requires WellFormed(text, ms) && k < |ms|
  {
    Chapter(ms[k].number, Trim(ms[k].title), Trim(Section(text, ms, k)), Some(ms[k].start))
  }

  /** The chapter record match `k` pushes before its content is known. */
  function Opened(m: Match): Chapter {
    Chapter(m.number, Trim(m.title), "", Some(m.start))
  }

  /** 1 when a preamble chapter precedes the chapter of the first match, else 0. */
  function Offset(ms: seq<Match>): nat {
    if |ms| > 0 && ms[0].start > 0 then 1 else 0
  }

  /** The synthetic preamble chapter, present when text precedes the first heading. */
  function Preamble(text: string, ms: seq<Match>): (r: seq<Chapter>)
    requires WellFormed(text, ms) && |ms| > 0
    ensures |r| == Offset(ms)
  {
    if ms[0].start > 0 then [Chapter(PreambleNumber, PreambleTitle, Trim(text[..ms[0].start]), None)] else []
  }

  /** The records complete once the scan reaches match `n`: the preamble, if
      any, followed by the chapters of the first `n` matches. */
  function Closed(text: string, ms: seq<Match>, n: nat): (r: seq<Chapter>)
    requires WellFormed(text, ms) && 0 < |ms| && n <= |ms|
    ensures |r| == Offset(ms) + n
  {
    if n == 0 then Preamble(text, ms) else Closed(text, ms, n - 1) + [ChapterAt(text, ms, n - 1)]
  }

  /** Reference definition of the chapter list built from a scan. */
  function SplitChapters(text: string, ms: seq<Match>): (r: seq<Chapter>)
    requires WellFormed(text, ms)
    ensures 0 < |r|
  {
    if |ms| == 0 then [Chapter(FallbackNumber, FallbackTitle, Trim(text), None)]
    else Closed(text, ms, |ms|)
  }

  /** Replacing the last element of `a + [x]` by `y` gives `a + [y]`. */
  lemma UpdateLast<T>(a: seq<T>, x: T, y: T)
    ensures (a + [x])[|a| := y] == a + [y]
  {
  }

  /** The records `parseText` holds after `i` turns of its loop: the closed
      ones and the still open chapter of match `i - 1`. */
  ghost function Expected(text: string, ms: seq<Match>, i: nat): seq<Chapter>
    requires WellFormed(text, ms) && i <= |ms|
  {
    if i == 0 then [] else Closed(text, ms, i - 1) + [Opened(ms[i - 1])]
  }

  /** The start of the open chapter after `i` turns (0 before the first). */
  ghost function LastStart(ms: seq<Match>, i: nat): nat
    requires i <= |ms|
  {
    if i == 0 then 0 else ms[i - 1].start
  }

  /** One turn of the loop of `parseText` on match `m`, as a function of the
      records so far and of the start of the open chapter. */
  function Turn(text: string, m: Match, chapters: seq<Chapter>, lastIndex: nat): (r: seq<Chapter>)
    requires lastIndex <= m.start <= |text|
    ensures |r| == |chapters| + 1 + (if |chapters| == 0 && m.start > 0 then 1 else 0)
    ensures forall j :: 0 <= j < |chapters| - 1 ==> r[j] == chapters[j]
    ensures r[|r| - 1] == Opened(m)
  {
    var pushed := if |chapters| == 0 && m.start > 0
                  then chapters + [Chapter(PreambleNumber, PreambleTitle, Trim(text[0..m.start]), None)]
                  else chapters;
    var closed := if |pushed| > 0
                  then pushed[|pushed| - 1 := pushed[|pushed| - 1].(content := Trim(text[lastIndex..m.start]))]
                  else pushed;
    closed + [Chapter(m.number, Trim(m.title), "", Some(m.start))]
  }

  /** What `parseText` does once the scan is exhausted. */
  function Finish(text: string, chapters: seq<Chapter>, lastIndex: nat): (r: seq<Chapter>)
    requires lastIndex <= |text|
    ensures |r| == if |chapters| == 0 then 1 else |chapters|
    ensures forall j :: 0 <= j < |chapters| - 1 ==> r[j] == chapters[j]
  {
    if |chapters| > 0
    then chapters[|chapters| - 1 := chapters[|chapters| - 1].(content := Trim(text[lastIndex..]))]
    else chapters + [Chapter(FallbackNumber, FallbackTitle, Trim(text), None)]
  }

  /** A turn closes the open chapter (pushing the preamble first when text
      precedes the first heading) and opens the chapter of match `i`. */
  lemma {:induction false} TurnCloses(text: string, ms: seq<Match>, i: nat, chapters: seq<Chapter>, lastIndex: nat)
    requires WellFormed(text, ms) && i < |ms|
    requires chapters == Expected(text, ms, i) && lastIndex == LastStart(ms, i)
    ensures lastIndex <= ms[i].start
    ensures Turn(text, ms[i], chapters, lastIndex) == Expected(text, ms, i + 1)
  {
    if i == 0 {
      assert text[0..ms[0].start] == text[..ms[0].start];
    } else {
      var done := ChapterAt(text, ms, i - 1);
      assert done == Opened(ms[i - 1]).(content := Trim(text[lastIndex..ms[i].start]));
      UpdateLast(Closed(text, ms, i - 1), Opened(ms[i - 1]), done);
    }
  }

  /** Finishing closes the last chapter at the end of the text, or yields the
      fallback chapter when there was no heading. */
  lemma {:induction false} FinishCloses(text: string, ms: seq<Match>, chapters: seq<Chapter>, lastIndex: nat)
    requires WellFormed(text, ms)
    requires chapters == Expected(text, ms, |ms|) && lastIndex == LastStart(ms, |ms|)
    ensures lastIndex <= |text|
    ensures Finish(text, chapters, lastIndex) == SplitChapters(text, ms)
  {
    if 0 < |ms| {
      var n := |ms| - 1;
      assert text[lastIndex..] == Section(text, ms, n);
      UpdateLast(Closed(text, ms, n), Opened(ms[n]), ChapterAt(text, ms, n));
    }
  }

  /** `parseText`: replays the scan loop, pushing each heading's record and
      closing the previous one by overwriting its content. */
  method ParseText(titleInput: string, text: string, ms: seq<Match>) returns (doc: Parsed)
    requires WellFormed(text, ms)
    ensures doc.title == DocumentTitle(titleInput)
    ensures doc.chapters == SplitChapters(text, ms)
  {
    var title := DocumentTitle(titleInput);
    var chapters: seq<Chapter> := [];
    var lastIndex: nat := 0;
    var i := 0;
    while i < |ms|
      invariant 0 <= i <= |ms|
      invariant chapters == Expected(text, ms, i) && lastIndex == LastStart(ms, i)
    {
      TurnCloses(text, ms, i, chapters, lastIndex);
      chapters := Turn(text, ms[i], chapters, lastIndex);
      lastIndex := ms[i].start;
      i := i + 1;
    }
    FinishCloses(text, ms, chapters, lastIndex);
    chapters := Finish(text, chapters, lastIndex);
    doc := Parsed(title, chapters);
  }

  /** Record `Offset + k` of the first `n` closed records is the chapter of match `k`. */
  lemma {:induction false} ClosedAt(text: string, ms: seq<Match>, n: nat, k: nat)
    requires WellFormed(text, ms) && k < n <= |ms|
    ensures Closed(text, ms, n)[Offset(ms) + k] == ChapterAt(text, ms, k)
    decreases n
  {
    if k < n - 1 {
      ClosedAt(text, ms, n - 1, k);
    }
  }

  /** The closed records start with the preamble. */
  lemma {:induction false} ClosedStartsWithPreamble(text: string, ms: seq<Match>, n: nat)
    requires WellFormed(text, ms) && 0 < |ms| && n <= |ms|
    ensures Closed(text, ms, n)[..Offset(ms)] == Preamble(text, ms)
    decreases n
  {
    if n > 0 {
      ClosedStartsWithPreamble(text, ms, n - 1);
      assert Closed(text, ms, n)[..Offset(ms)] == Closed(text, ms, n - 1)[..Offset(ms)];
    }
  }

  /** One chapter per match, plus the preamble when text precedes the first
      heading; a single chapter when nothing matches. */
  lemma ChapterCount(text: string, ms: seq<Match>)
    requires WellFormed(text, ms)
    ensures |SplitChapters(text, ms)| == if |ms| == 0 then 1 else Offset(ms) + |ms|
  {
  }

  /** Without any heading the whole trimmed text is the single chapter 1. */
  lemma NoHeadingFallback(text: string, ms: seq<Match>)
    requires WellFormed(text, ms) && |ms| == 0
    ensures SplitChapters(text, ms) == [Chapter(FallbackNumber, FallbackTitle, Trim(text), None)]
  {
  }

  /** Text before the first heading becomes chapter 0, even when it is blank. */
  lemma {:induction false} PreambleChapter(text: string, ms: seq<Match>)
    requires WellFormed(text, ms) && 0 < |ms| && 0 < ms[0].start
    ensures SplitChapters(text, ms)[0]
            == Chapter(PreambleNumber, PreambleTitle, Trim(text[..ms[0].start]), None)
  {
    ClosedStartsWithPreamble(text, ms, |ms|);
    assert SplitChapters(text, ms)[0] == Closed(text, ms, |ms|)[..1][0];
  }

  /** The chapter of match `k`: group 1 as number, trimmed group 2 as title,
      and as content the trimmed text from its heading's start to the next
      heading's start (or to the end of the text). */
  lemma {:induction false} ChapterOfMatch(text: string, ms: seq<Match>, k: nat)
    requires WellFormed(text, ms) && k < |ms|
    ensures Offset(ms) + k < |SplitChapters(text, ms)|
    ensures var c := SplitChapters(text, ms)[Offset(ms) + k];
            && c.number == ms[k].number
            && c.title == Trim(ms[k].title)
            && c.startIndex == Some(ms[k].start)
            && c.content == Trim(text[ms[k].start..if k + 1 < |ms| then ms[k + 1].start else |text|])
  {
    ClosedAt(text, ms, |ms|, k);
  }

  /** A chapter's content begins with its heading: when the heading's first
      character and the `n`-th character from it are not whitespace, the `n`
      characters from the heading's start survive trimming. */
  lemma {:induction false} HeadingOpensContent(text: string, ms: seq<Match>, k: nat, n: nat)
    requires WellFormed(text, ms) && k < |ms|
    requires 1 <= n && ms[k].start + n <= End(text, ms, k)
    requires !IsWs(text[ms[k].start]) && !IsWs(text[ms[k].start + n - 1])
    ensures Offset(ms) + k < |SplitChapters(text, ms)|
    ensures var c := SplitChapters(text, ms)[Offset(ms) + k];
            n <= |c.content| && c.content[..n] == text[ms[k].start..ms[k].start + n]
  {
    ClosedAt(text, ms, |ms|, k);
    TrimKeepsSlicePrefixTo(text, ms[k].start, End(text, ms, k), n);
  }

  /** The untrimmed sections of the first `n` matches. */
  function Sections(text: string, ms: seq<Match>, n: nat): (r: seq<string>)
    requires WellFormed(text, ms) && n <= |ms|
    ensures |r| == n
  {
    if n == 0 then [] else Sections(text, ms, n - 1) + [Section(text, ms, n - 1)]
  }

  /** Consecutive sections tile the text from the first heading onwards. */
  lemma {:induction false} SectionsTile(text: string, ms: seq<Match>, n: nat)
    requires WellFormed(text, ms) && 0 < n <= |ms|
    ensures Concat(Sections(text, ms, n)) == text[ms[0].start..End(text, ms, n - 1)]
    decreases n
  {
    if n > 1 {
      SectionsTile(text, ms, n - 1);
      var e := End(text, ms, n - 2);
      assert text[ms[0].start..End(text, ms, n - 1)]
             == text[ms[0].start..e] + text[e..End(text, ms, n - 1)];
    }
  }

  /** The text before the first heading and the sections of all matches,
      concatenated, give back the whole text: no character is lost or
      counted twice. */
  lemma {:induction false} SectionsCoverText(text: string, ms: seq<Match>)
    requires WellFormed(text, ms) && 0 < |ms|
    ensures text[..ms[0].start] + Concat(Sections(text, ms, |ms|)) == text
  {
    SectionsTile(text, ms, |ms|);
    assert text == text[..ms[0].start] + text[ms[0].start..];
  }
}
