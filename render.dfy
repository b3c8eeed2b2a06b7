/**
  * HTML generation (`generateHTML`) and the conversion entry point
  * (`convertText`) in converter-script.js.
  *
  * The page is a table of contents, one entry per chapter, followed by the
  * content: per chapter an `<h4>` heading and one `<p>` per paragraph. The
  * output is literal text: nothing is escaped, and the `<h1>` of the title
  * is "closed" by a second `<h1>`, as in `generateHTML`.
  */
module Render {
  import opened Wrappers
  import opened Strings
  import opened Chapters
  import opened Paragraphs
  import opened Furigana

  /** The opening of the table of contents, up to its list. */
  function TocOpen(title: string): string {
    "<!-- 目次セクション -->\n<div class=\"toc\">\n<h1>" + title + "<h1>\n<h3>目次</h3>\n<ul>\n"
  }

  /** Between the table of contents and the chapters. */
  const ContentOpen := "</ul>\n</div>\n\n<!-- 本文コンテンツ -->\n<div id=\"content\" class=\"content\">\n"

  const ContentClose := "</div>"

  /** The link target of the chapter at 1-based position `n`. */
  function Anchor(n: nat): string {
    "chapter" + NatToDecimal(n)
  }

  /** The label shared by a chapter's entry and heading. */
  function Label(c: Chapter): string {
    "第" + c.number + "章：" + c.title
  }

  function TocEntry(c: Chapter, n: nat): string {
    "<li><a href=\"#" + Anchor(n) + "\">" + Label(c) + "</a></li>\n"
  }

  function Heading(c: Chapter, n: nat): string {
    "<h4 id=\"" + Anchor(n) + "\">" + Label(c) + "</h4>\n"
  }

  /** A paragraph's HTML: its trimmed form with furigana, in `<p>`, when that
      trimmed form is not empty. */
  function ParagraphHtml(a: Annotator, p: string): string {
    var t := Trim(p);
    if t != "" then "<p>" + Annotated(a, t) + "</p>\n" else ""
  }

  function ParagraphHtmls(a: Annotator, ps: seq<string>): (r: seq<string>)
    ensures |r| == |ps| && forall j :: 0 <= j < |ps| ==> r[j] == ParagraphHtml(a, ps[j])
  {
    seq(|ps|, j requires 0 <= j < |ps| => ParagraphHtml(a, ps[j]))
  }

  function TocEntries(cs: seq<Chapter>): (r: seq<string>)
    ensures |r| == |cs| && forall i :: 0 <= i < |cs| ==> r[i] == TocEntry(cs[i], i + 1)
  {
    seq(|cs|, i requires 0 <= i < |cs| => TocEntry(cs[i], i + 1))
  }

  /** A chapter's part of the content: its heading, then its paragraphs. */
  function ChapterHtml(a: Annotator, sep: Separator, c: Chapter, n: nat): string {
    Heading(c, n) + Concat(ParagraphHtmls(a, SplitIntoParagraphs(sep, c.content)))
  }

  function ChapterHtmls(a: Annotator, sep: Separator, cs: seq<Chapter>): (r: seq<string>)
    ensures |r| == |cs| && forall i :: 0 <= i < |cs| ==> r[i] == ChapterHtml(a, sep, cs[i], i + 1)
  {
    seq(|cs|, i requires 0 <= i < |cs| => ChapterHtml(a, sep, cs[i], i + 1))
  }

  /** The whole page. */
  function Page(doc: Parsed, a: Annotator, sep: Separator): string {
    TocOpen(doc.title) + Concat(TocEntries(doc.chapters))
    + ContentOpen + Concat(ChapterHtmls(a, sep, doc.chapters)) + ContentClose
  }

  lemma Assoc(x: string, y: string, z: string)
    ensures (x + y) + z == x + (y + z)
  {
  }

  /** Appending element `i` of `xs` to the concatenation of the ones before it. */
  lemma ConcatStep(xs: seq<string>, i: nat)
    requires i < |xs|
    ensures Concat(xs[..i + 1]) == Concat(xs[..i]) + xs[i]
  {
    assert xs[..i + 1][..i] == xs[..i];
  }

  /** The first `forEach` of `generateHTML`: one entry per chapter. */
  method AppendTocEntries(html: string, cs: seq<Chapter>) returns (out: string)
    ensures out == html + Concat(TocEntries(cs))
  {
    ghost var toc := TocEntries(cs);
    out := html;
    for i := 0 to |cs|
      invariant out == html + Concat(toc[..i])
    {
      ConcatStep(toc, i);
      Assoc(html, Concat(toc[..i]), toc[i]);
      out := out + TocEntry(cs[i], i + 1);
    }
    assert toc[..|cs|] == toc;
  }

  /** The inner `forEach`: a `<p>` per paragraph whose trimmed form is not empty. */
  method AppendParagraphs(html: string, a: Annotator, paragraphs: seq<string>) returns (out: string)
    ensures out == html + Concat(ParagraphHtmls(a, paragraphs))
  {
    ghost var ph := ParagraphHtmls(a, paragraphs);
    out := html;
    for j := 0 to |paragraphs|
      invariant out == html + Concat(ph[..j])
    {
      ConcatStep(ph, j);
      Assoc(html, Concat(ph[..j]), ph[j]);
      var trimmed := Trim(paragraphs[j]);
      if trimmed != "" {
        var withFurigana := AddFurigana(a, trimmed);
        out := out + ("<p>" + withFurigana + "</p>\n");
      }
    }
    assert ph[..|paragraphs|] == ph;
  }

  /** The second `forEach`: per chapter its heading, then its paragraphs. */
  method AppendChapters(html: string, a: Annotator, sep: Separator, cs: seq<Chapter>) returns (out: string)
    ensures out == html + Concat(ChapterHtmls(a, sep, cs))
  {
    ghost var body := ChapterHtmls(a, sep, cs);
    out := html;
    for i := 0 to |cs|
      invariant out == html + Concat(body[..i])
    {
      ghost var start := out;
      out := out + Heading(cs[i], i + 1);
      var paragraphs := SplitIntoParagraphs(sep, cs[i].content);
      out := AppendParagraphs(out, a, paragraphs);
      Assoc(start, Heading(cs[i], i + 1), Concat(ParagraphHtmls(a, paragraphs)));
      ConcatStep(body, i);
      Assoc(html, Concat(body[..i]), body[i]);
    }
    assert body[..|cs|] == body;
  }

  /** `generateHTML`: the table of contents, then each chapter's heading and
      its paragraphs with furigana. */
  method GenerateHTML(doc: Parsed, a: Annotator, sep: Separator) returns (html: string)
    ensures html == Page(doc, a, sep)
  {
    html := TocOpen(doc.title);
    html := AppendTocEntries(html, doc.chapters);
    html := html + ContentOpen;
    html := AppendChapters(html, a, sep, doc.chapters);
    html := html + ContentClose;
  }

  /** Distinct positions get distinct anchors, so each table-of-contents
      link targets exactly one heading. */
  lemma {:induction false} AnchorsDistinct(m: nat, n: nat)
    ensures Anchor(m) == Anchor(n) <==> m == n
  {
    if Anchor(m) == Anchor(n) {
      var p := "chapter";
      assert NatToDecimal(m) == Anchor(m)[|p|..];
      assert NatToDecimal(n) == Anchor(n)[|p|..];
      NatToDecimalInjective(m, n);
    }
  }

  /** The `i`-th entry of the table of contents and the `i`-th heading carry
      the same anchor, `chapter` followed by `i + 1`, and the same label. */
  lemma {:induction false} EntryMatchesHeading(a: Annotator, sep: Separator, cs: seq<Chapter>, i: nat)
    requires i < |cs|
    ensures var entry := TocEntries(cs)[i];
            var part := ChapterHtmls(a, sep, cs)[i];
            var h := Heading(cs[i], i + 1);
            && entry == "<li><a href=\"#" + Anchor(i + 1) + "\">" + Label(cs[i]) + "</a></li>\n"
            && |h| <= |part| && part[..|h|] == h
            && h == "<h4 id=\"" + Anchor(i + 1) + "\">" + Label(cs[i]) + "</h4>\n"
  {
    var h := Heading(cs[i], i + 1);
    var rest := Concat(ParagraphHtmls(a, SplitIntoParagraphs(sep, cs[i].content)));
    assert (h + rest)[..|h|] == h;
  }

  /** Every paragraph of a chapter gets its `<p>`: paragraphs are never blank,
      so the emptiness check on the trimmed paragraph always passes. */
  lemma ParagraphAlwaysWrapped(a: Annotator, sep: Separator, content: string, j: nat)
    requires j < |SplitIntoParagraphs(sep, content)|
    ensures var p := SplitIntoParagraphs(sep, content)[j];
            && Trim(p) != ""
            && ParagraphHtmls(a, SplitIntoParagraphs(sep, content))[j]
               == "<p>" + Annotated(a, Trim(p)) + "</p>\n"
  {
    var p := SplitIntoParagraphs(sep, content)[j];
    ParagraphsArePieces(sep, content, p);
    TrimEmptyIffBlank(p);
  }

  /** Why `convertText` refuses to convert. */
  datatype ConvertError = EmptyInput | TokenizerLoading

  /** `convertText`: refuses blank input, and refuses while the tokenizer is
      still loading when automatic furigana is on; otherwise parses the text
      into chapters and renders the page. */
  method ConvertText(input: string, titleInput: string, ms: seq<Match>, a: Annotator, sep: Separator)
    returns (r: Result<string, ConvertError>)
    requires WellFormed(input, ms)
    ensures IsBlank(input) ==> r == Err(EmptyInput)
    ensures !IsBlank(input) && a.autoFurigana && !a.tokenizerLoaded ==> r == Err(TokenizerLoading)
    ensures !IsBlank(input) && (!a.autoFurigana || a.tokenizerLoaded)
            ==> r == Ok(Page(Parsed(DocumentTitle(titleInput), SplitChapters(input, ms)), a, sep))
  {
    TrimEmptyIffBlank(input);
    if Trim(input) == "" {
      return Err(EmptyInput);
    }
    if a.autoFurigana && !a.tokenizerLoaded {
      return Err(TokenizerLoading);
    }
    var doc := ParseText(titleInput, input, ms);
    var html := GenerateHTML(doc, a, sep);
    return Ok(html);
  }
}
