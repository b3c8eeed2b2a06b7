/**
  * Paragraph splitting (`splitIntoParagraphs` in converter-script.js).
  *
  * `String.prototype.split` with a regular expression walks the text from
  * left to right: at each position it tries the separator; on a match that
  * ends at `e` it cuts the piece before it and resumes the search at `e`,
  * otherwise it moves one position on; the rest of the text is the last
  * piece. The split is described here by the spans of its pieces, and the
  * pieces whose trimmed form is empty are dropped afterwards.
  */
module Paragraphs {
  import opened Wrappers
  import opened Strings

  /** The paragraph separator setting: `\n\s*\n`, `\n(?=\s)`, or either. */
  datatype Separator = EmptyLine | Indent | Both

  /** The setting string `empty-line` or `indent`; any other value means both. */
  function SeparatorOf(setting: string): (r: Separator)
    ensures r == EmptyLine <==> setting == "empty-line"
    ensures r == Indent <==> setting == "indent"
    ensures r == Both <==> setting != "empty-line" && setting != "indent"
  {
    if setting == "empty-line" then EmptyLine
    else if setting == "indent" then Indent
    else Both
  }

  /** Length of the run of whitespace starting at `i`. */
  function WsRun(text: string, i: nat): (n: nat)
    requires i <= |text|
    ensures i + n <= |text|
    ensures forall j :: i <= j < i + n ==> IsWs(text[j])
    ensures i + n == |text| || !IsWs(text[i + n])
    decreases |text| - i
  {
    if i < |text| && IsWs(text[i]) then 1 + WsRun(text, i + 1) else 0
  }

  /** The last line feed in `text[lo..hi]`, if any. */
  function LastNewline(text: string, lo: nat, hi: nat): (r: Option<nat>)
    requires lo <= hi <= |text|
    ensures r.Some? ==> lo <= r.value < hi && text[r.value] == '\n'
    ensures r.Some? ==> forall j :: r.value < j < hi ==> text[j] != '\n'
    ensures r.None? ==> forall j :: lo <= j < hi ==> text[j] != '\n'
    decreases hi - lo
  {
    if lo == hi then None
    else if text[hi - 1] == '\n' then Some(hi - 1)
    else LastNewline(text, lo, hi - 1)
  }

  /** Where a separator match starting at `q` ends, if one starts there.
      `\n\s*\n` takes the longest whitespace run that ends in a line feed;
      `\n(?=\s)` consumes only the line feed and needs whitespace after it;
      in the alternation the first alternative is tried first. */
  function SepEnd(sep: Separator, text: string, q: nat): (r: Option<nat>)
    requires q < |text|
    ensures r.Some? ==> q < r.value <= |text| && text[q] == '\n'
    ensures r.Some? ==> forall j :: q <= j < r.value ==> IsWs(text[j])
  {
    if text[q] != '\n' then None
    else
      var w := WsRun(text, q + 1);
      var blank := LastNewline(text, q + 1, q + 1 + w);
      match sep
      case EmptyLine => if blank.Some? then Some(blank.value + 1) else None
      case Indent => if 0 < w then Some(q + 1) else None
      case Both => if blank.Some? then Some(blank.value + 1) else if 0 < w then Some(q + 1) else None
  }

  /** `text[q..e]` is a match of `\n\s*\n`: a line feed, whitespace only,
      and a line feed that ends at `e`. */
  predicate EmptyLineAt(text: string, q: nat, e: nat) {
    && q + 2 <= e <= |text| && text[q] == '\n' && text[e - 1] == '\n'
    && forall i :: q < i < e - 1 ==> IsWs(text[i])
  }

  /** What each separator matches at `q`. `\n\s*\n` matches when a second
      line feed follows across whitespace, and the greedy `\s*` makes the
      match the longest such one. `\n(?=\s)` consumes the line feed alone
      when whitespace follows it. The alternation of both takes the first
      alternative when it matches, and else the second. */
  lemma SepEndMatches(text: string, q: nat)
    requires q < |text|
    ensures var r := SepEnd(EmptyLine, text, q);
            && (r.Some? ==> EmptyLineAt(text, q, r.value) && forall e: nat :: EmptyLineAt(text, q, e) ==> e <= r.value)
            && (r.None? ==> forall e: nat :: !EmptyLineAt(text, q, e))
    ensures SepEnd(Indent, text, q)
            == if text[q] == '\n' && q + 1 < |text| && IsWs(text[q + 1]) then Some(q + 1) else None
    ensures SepEnd(Both, text, q)
            == if SepEnd(EmptyLine, text, q).Some? then SepEnd(EmptyLine, text, q) else SepEnd(Indent, text, q)
  {
    if text[q] == '\n' {
      var w := WsRun(text, q + 1);
      forall e: nat | EmptyLineAt(text, q, e)
        ensures e <= q + 1 + w
      {
        assert IsWs(text[e - 1]);
      }
    }
  }

  /** A piece of the split, as the indices `text[lo..hi]`. */
  datatype Span = Span(lo: nat, hi: nat)

  /** The spans of the pieces `split` produces, resuming with the current
      piece starting at `p` and the search at `q`. */
  function SplitSpans(sep: Separator, text: string, p: nat, q: nat): (r: seq<Span>)
    requires p <= q <= |text|
    ensures 0 < |r| && r[0].lo == p && q <= r[0].hi
    ensures forall i :: 0 <= i < |r| ==> r[i].lo <= r[i].hi <= |text|
    decreases |text| - q
  {
    if q == |text| then [Span(p, |text|)]
    else
      var e := SepEnd(sep, text, q);
      if e.Some? then [Span(p, q)] + SplitSpans(sep, text, e.value, e.value)
      else SplitSpans(sep, text, p, q + 1)
  }

  /** Consecutive spans are joined by a separator match running from the end
      of one to the start of the next; the last span ends with the text. */
  predicate Joined(sep: Separator, text: string, r: seq<Span>)
    requires forall i :: 0 <= i < |r| ==> r[i].lo <= r[i].hi <= |text|
  {
    && 0 < |r| && r[|r| - 1].hi == |text|
    && (forall i :: 0 <= i < |r| - 1 ==> r[i].hi < |text| && SepEnd(sep, text, r[i].hi) == Some(r[i + 1].lo))
  }

  /** No separator match starts inside a span. */
  predicate SeparatorFree(sep: Separator, text: string, r: seq<Span>)
    requires forall i :: 0 <= i < |r| ==> r[i].lo <= r[i].hi <= |text|
  {
    forall i, j :: 0 <= i < |r| && r[i].lo <= j < r[i].hi ==> SepEnd(sep, text, j).None?
  }

  /** `split` cuts at the separator matches it finds and the last piece runs
      to the end of the text. */
  lemma {:induction false} SplitJoined(sep: Separator, text: string, p: nat, q: nat)
    requires p <= q <= |text|
    ensures Joined(sep, text, SplitSpans(sep, text, p, q))
    decreases |text| - q
  {
    if q < |text| {
      var e := SepEnd(sep, text, q);
      if e.Some? {
        SplitJoined(sep, text, e.value, e.value);
        var rest := SplitSpans(sep, text, e.value, e.value);
        assert SplitSpans(sep, text, p, q) == [Span(p, q)] + rest;
      } else {
        SplitJoined(sep, text, p, q + 1);
      }
    }
  }

  /** `split` cuts at the leftmost separator matches: none starts inside a piece. */
  lemma {:induction false} SplitSeparatorFree(sep: Separator, text: string, p: nat, q: nat)
    requires p <= q <= |text|
    requires forall j :: p <= j < q ==> SepEnd(sep, text, j).None?
    ensures SeparatorFree(sep, text, SplitSpans(sep, text, p, q))
    decreases |text| - q
  {
    if q < |text| {
      var e := SepEnd(sep, text, q);
      if e.Some? {
        SplitSeparatorFree(sep, text, e.value, e.value);
        var rest := SplitSpans(sep, text, e.value, e.value);
        assert SplitSpans(sep, text, p, q) == [Span(p, q)] + rest;
      } else {
        SplitSeparatorFree(sep, text, p, q + 1);
      }
    }
  }

  /** Some span contains index `j`. */
  predicate Covers(r: seq<Span>, j: nat) {
    exists i :: 0 <= i < |r| && r[i].lo <= j < r[i].hi
  }

  /** Only whitespace falls between the spans: every other character of the
      text lies inside one of them. */
  lemma {:induction false} SplitKeepsVisible(sep: Separator, text: string, p: nat, q: nat, j: nat)
    requires p <= q <= |text|
    requires p <= j < |text| && !IsWs(text[j])
    ensures Covers(SplitSpans(sep, text, p, q), j)
    decreases |text| - q
  {
    var r := SplitSpans(sep, text, p, q);
    if q < |text| {
      var e := SepEnd(sep, text, q);
      if e.Some? {
        var rest := SplitSpans(sep, text, e.value, e.value);
        assert r == [Span(p, q)] + rest;
        if j < q {
          assert r[0] == Span(p, q);
        } else {
          assert e.value <= j;
          SplitKeepsVisible(sep, text, e.value, e.value, j);
          var i :| 0 <= i < |rest| && rest[i].lo <= j < rest[i].hi;
          assert r[i + 1] == rest[i];
        }
      } else {
        SplitKeepsVisible(sep, text, p, q + 1, j);
      }
    } else {
      assert r[0].lo <= j < r[0].hi;
    }
  }

  /** The pieces cut out by the spans. */
  function Slices(text: string, spans: seq<Span>): (r: seq<string>)
    requires forall i :: 0 <= i < |spans| ==> spans[i].lo <= spans[i].hi <= |text|
    ensures |r| == |spans|
    ensures forall i :: 0 <= i < |r| ==> r[i] == text[spans[i].lo..spans[i].hi]
  {
    seq(|spans|, i requires 0 <= i < |spans| => text[spans[i].lo..spans[i].hi])
  }

  /** `text.split(separator)`. */
  function Split(sep: Separator, text: string): (r: seq<string>)
    ensures 0 < |r|
  {
    Slices(text, SplitSpans(sep, text, 0, 0))
  }

  /** `filter(p => p.trim() !== '')`: the pieces with a non-empty trimmed form,
      in order. */
  function KeepNonBlank(ps: seq<string>): (r: seq<string>)
    ensures |r| <= |ps|
    ensures forall i :: 0 <= i < |r| ==> Trim(r[i]) != ""
  {
    if |ps| == 0 then []
    else
      var last := ps[|ps| - 1];
      KeepNonBlank(ps[..|ps| - 1]) + (if Trim(last) != "" then [last] else [])
  }

  /** The filter keeps exactly the pieces that are not blank. */
  lemma {:induction false} KeepNonBlankMembers(ps: seq<string>, x: string)
    ensures x in KeepNonBlank(ps) <==> x in ps && !IsBlank(x)
    decreases |ps|
  {
    if |ps| > 0 {
      var init := ps[..|ps| - 1];
      KeepNonBlankMembers(init, x);
      TrimEmptyIffBlank(ps[|ps| - 1]);
      assert ps == init + [ps[|ps| - 1]];
    }
  }

  /** `r` takes, in order, the pieces of `ps` at the increasing positions
      `idx`, and these are exactly the positions of the non-blank pieces. */
  predicate PicksNonBlank(ps: seq<string>, r: seq<string>, idx: seq<nat>) {
    && |idx| == |r|
    && (forall i :: 0 <= i < |idx| ==> idx[i] < |ps| && r[i] == ps[idx[i]])
    && (forall i, j :: 0 <= i < j < |idx| ==> idx[i] < idx[j])
    && (forall j :: 0 <= j < |ps| ==> (!IsBlank(ps[j]) <==> j in idx))
  }

  /** A blank last piece is dropped. */
  lemma PicksSkip(ps: seq<string>, r: seq<string>, idx: seq<nat>)
    requires |ps| > 0 && IsBlank(ps[|ps| - 1]) && PicksNonBlank(ps[..|ps| - 1], r, idx)
    ensures PicksNonBlank(ps, r, idx)
  {
    assert forall j :: 0 <= j < |ps| - 1 ==> ps[..|ps| - 1][j] == ps[j];
  }

  /** A non-blank last piece is kept, after all the others. */
  lemma PicksSnoc(ps: seq<string>, r: seq<string>, idx: seq<nat>)
    requires |ps| > 0 && !IsBlank(ps[|ps| - 1]) && PicksNonBlank(ps[..|ps| - 1], r, idx)
    ensures PicksNonBlank(ps, r + [ps[|ps| - 1]], idx + [|ps| - 1])
  {
    assert forall j :: 0 <= j < |ps| - 1 ==> ps[..|ps| - 1][j] == ps[j];
  }

  /** The filter keeps the non-blank pieces, each once, in their order. */
  lemma {:induction false} KeepNonBlankOrder(ps: seq<string>) returns (idx: seq<nat>)
    ensures PicksNonBlank(ps, KeepNonBlank(ps), idx)
    decreases |ps|
  {
    if |ps| == 0 {
      idx := [];
    } else {
      var init := ps[..|ps| - 1];
      var before := KeepNonBlankOrder(init);
      TrimEmptyIffBlank(ps[|ps| - 1]);
      if IsBlank(ps[|ps| - 1]) {
        PicksSkip(ps, KeepNonBlank(init), before);
        idx := before;
      } else {
        PicksSnoc(ps, KeepNonBlank(init), before);
        idx := before + [|ps| - 1];
      }
    }
  }

  /** `splitIntoParagraphs`. */
  function SplitIntoParagraphs(sep: Separator, text: string): (r: seq<string>)
    ensures forall i :: 0 <= i < |r| ==> Trim(r[i]) != ""
  {
    KeepNonBlank(Split(sep, text))
  }

  /** Every paragraph is a piece of the split, and so a separator-free
      substring of the text, holding at least one non-whitespace character;
      every such piece is a paragraph. */
  lemma ParagraphsArePieces(sep: Separator, text: string, x: string)
    ensures x in SplitIntoParagraphs(sep, text) <==> x in Split(sep, text) && !IsBlank(x)
  {
    KeepNonBlankMembers(Split(sep, text), x);
  }

  /** The paragraphs are the non-blank pieces of the split, each once, in
      their order in the text. */
  lemma ParagraphsInOrder(sep: Separator, text: string) returns (idx: seq<nat>)
    ensures PicksNonBlank(Split(sep, text), SplitIntoParagraphs(sep, text), idx)
  {
    idx := KeepNonBlankOrder(Split(sep, text));
  }

  /** No visible character is lost: each non-whitespace character of the text
      lies in a piece that survives the filter. */
  lemma ParagraphsKeepVisible(sep: Separator, text: string, j: nat)
    requires j < |text| && !IsWs(text[j])
    ensures exists x :: x in SplitIntoParagraphs(sep, text)
                        && exists i :: 0 <= i < |SplitSpans(sep, text, 0, 0)| && x == Split(sep, text)[i]
                                       && SplitSpans(sep, text, 0, 0)[i].lo <= j < SplitSpans(sep, text, 0, 0)[i].hi
  {
    var r := SplitSpans(sep, text, 0, 0);
    SplitKeepsVisible(sep, text, 0, 0, j);
    var i :| 0 <= i < |r| && r[i].lo <= j < r[i].hi;
    var x := text[r[i].lo..r[i].hi];
    assert x[j - r[i].lo] == text[j];
    assert x == Split(sep, text)[i];
    ParagraphsArePieces(sep, text, x);
  }
}
