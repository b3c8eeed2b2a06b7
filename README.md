# Novel text to HTML converter: a Dafny model

The converter turns a plain-text Japanese novel into an HTML page. It cuts
the text into chapters at headings such as `第1章：始まり`, adding a preamble
chapter for any text before the first heading. It splits each chapter into
paragraphs and annotates kanji words with furigana (`<ruby>` readings) taken
from a morphological analyser. It then renders a table of contents and the
chapter bodies. This project models that pipeline from `converter-script.js`
and proves properties of it:

- `parseText` is `Chapters.ParseText`: a loop over the heading matches that
  pushes chapter records and overwrites the last record's content. It is
  proved equal to the reference definition `Chapters.SplitChapters`.
  `DefaultPattern` scans the default heading pattern `第(\d+)章[:：](.+)`.
- `splitIntoParagraphs` is `Paragraphs.SplitIntoParagraphs`. It models
  `String.prototype.split` with the three separator expressions, followed by
  the filter on trimmed pieces.
- `katakanaToHiragana` is `Kana.KatakanaToHiragana`.
- `addFurigana` is `Furigana.AddFurigana`. Its loop carries the `lastIndex`
  of the exclusion expression from token to token, because that expression
  is compiled with the `g` flag.
- `generateHTML` and the guards of `convertText` are `Render.GenerateHTML`
  and `Render.ConvertText`.

Strings are sequences of characters. `String.prototype.trim` and the
expression class `\s` share one whitespace predicate, `Strings.IsWs`, which
covers ECMAScript WhiteSpace and LineTerminator, U+3000 included.

A chapter's content runs from the start of its own heading to the start of
the next heading, so the heading line is part of the chapter's content:
`lastIndex` is set to the match start at converter-script.js:144.

## Model

| member | source | states |
|---|---|---|
| `Chapters.DocumentTitle` | converter-script.js:106 | The title is the trimmed title input, or `タイトルなし` exactly when the input is blank. It is never empty. |
| `Chapters.ParseText` | converter-script.js:105-165 | The loop of pushes and content overwrites yields the title and exactly the chapter list `SplitChapters` defines for the scan's matches. |
| `Chapters.Turn` | converter-script.js:114-145 | One turn of the loop adds the new heading's record with empty content at the end. It adds one more record, the preamble, when the list was empty and text precedes the heading. All records before the previous last one are unchanged. |
| `Chapters.TurnCloses` | converter-script.js:114-145 | One loop turn does three things. It pushes the preamble before the first heading if text precedes it. It closes the open chapter with the trimmed text up to the new heading. It opens the new heading's record with empty content. |
| `Chapters.Finish` | converter-script.js:147-159 | After the loop, an empty list gets the single fallback chapter. Otherwise only the last record changes. |
| `Chapters.FinishCloses` | converter-script.js:147-159 | After the loop, the last chapter gets the trimmed rest of the text. With no heading, the single fallback chapter is pushed. |
| `Chapters.SplitChapters` | converter-script.js:114-159 | The reference chapter list for a scan is never empty. Its other properties are stated by the lemmas below. |
| `Chapters.ChapterCount` | converter-script.js:114-159 | There is one chapter per match, plus one when the first match starts after index 0. With no match there is exactly one chapter. |
| `Chapters.NoHeadingFallback` | converter-script.js:152-159 | With no match, the result is the single chapter `1` titled `テキスト`, whose content is the trimmed text. |
| `Chapters.PreambleChapter` | converter-script.js:120-126 | Text before the first heading becomes chapter `0` titled `序章`, with that text trimmed as content. This holds even when the text is blank. |
| `Chapters.ChapterOfMatch` | converter-script.js:115-151 | The chapter of match k has group 1 as its number and the trimmed group 2 as its title. Its start is the match start. Its content is the trimmed text from its start to the next match's start, or to the end of the text. |
| `Chapters.HeadingOpensContent` | converter-script.js:129-151 | When the character at a heading's start and the n-th character from it are not whitespace, the n characters from the heading's start survive trimming. They open the chapter's content. |
| `Chapters.SectionsTile` | converter-script.js:129-151 | The untrimmed chapter sections lie end to end from the first heading onwards. |
| `Chapters.SectionsCoverText` | converter-script.js:120-151 | The preamble text and the chapter sections, concatenated, give back the whole text. |
| `DefaultPattern.HeadingAtSound` | converter-script.js:29 | What the heading matcher finds at a position matches the default pattern: `第`, ASCII digits, `章`, a colon, and a title to the end of the line. |
| `DefaultPattern.HeadingAtComplete` | converter-script.js:29 | Every match of the default pattern is the one the heading matcher finds at its start, with the longest digit run and the whole rest of the line. |
| `DefaultPattern.ScanSound` | converter-script.js:107-114 | Every match the global `exec` scan reports is a heading match at its start. |
| `DefaultPattern.HeadingAt` | converter-script.js:29 | The match the pattern finds at a position, if any, starts at that position and ends inside the text. |
| `DefaultPattern.ScanFrom` | converter-script.js:107-114 | The global `exec` scan from a search position: every reported start lies between that position and the end of the text. |
| `DefaultPattern.DefaultScan` | converter-script.js:107-114 | Defined as the scan from index 0, where a fresh global expression starts. |
| `DefaultPattern.ScanComplete` | converter-script.js:107-114 | The scan misses no heading. No match of the pattern starts before the first reported match, between one match's end and the next match's start, or after the last match. |
| `DefaultPattern.ScanDisjoint` | converter-script.js:114 | Each match starts at or after the end of the previous one. |
| `DefaultPattern.ScanWellFormed` | converter-script.js:114 | Match starts are inside the text and strictly increasing, so the scan can drive `ParseText`. |
| `DefaultPattern.HeadingLineOpensContent` | converter-script.js:129-151 | A heading line that starts with non-whitespace and ends within its chapter opens the chapter's content, once trimmed. Trimming removes only whitespace at the line's end. |
| `DefaultPattern.HeadingsOpenContent` | converter-script.js:129-151 | The chapter of a heading match begins with that heading's `第`, number and `章`. More than that, it begins with the whole heading line, colon and title included, minus trailing whitespace. |
| `DefaultPattern.DefaultChapterOpensWithHeading` | converter-script.js:105-165 | With the default pattern, each heading's chapter content begins with its whole heading line, trimmed. That line starts with `第`, the number and `章`. |
| `Strings.IsWs` | converter-script.js:171-177 | Defined as the ECMAScript WhiteSpace and LineTerminator characters. This one class serves `\s` and `trim()`. |
| `Strings.Trim` | converter-script.js:243 | `trim()` gives a result no longer than its input. |
| `Strings.TrimIsInfix` | converter-script.js:243 | `trim()` removes exactly the longest whitespace-only prefix and suffix. The result is a slice between two whitespace-only margins, and it is empty or has non-whitespace at both ends. |
| `Strings.TrimEmptyIffBlank` | converter-script.js:258 | A string trims to empty exactly when it is whitespace only. |
| `Strings.TrimEdges` | converter-script.js:243 | A trimmed string is empty, or it starts and ends with non-whitespace. |
| `Strings.TrimIdempotent` | converter-script.js:243 | Trimming twice is trimming once. |
| `Strings.NatToDecimalInjective` | converter-script.js:230 | Distinct chapter positions print as distinct decimal strings. |
| `Paragraphs.SeparatorOf` | converter-script.js:169-178 | `empty-line` and `indent` select their expressions. Any other setting selects the alternation of both. |
| `Paragraphs.SepEnd` | converter-script.js:171-177 | A separator match starts at a line feed and consists of whitespace only. |
| `Paragraphs.SepEndMatches` | converter-script.js:171-177 | When each separator matches, and where the match ends. `\n\s*\n` matches exactly when a second line feed follows across whitespace, and it takes the longest such match. `\n(?=\s)` matches exactly at a line feed followed by whitespace, and consumes only the line feed. The alternation gives the first form's match when there is one, and otherwise the second's. |
| `Paragraphs.SplitSpans` | converter-script.js:171-177 | The ECMAScript `split` walk over the text: there is at least one piece, the first piece starts at the current piece's start, and every piece lies inside the text. |
| `Paragraphs.Split` | converter-script.js:171-177 | `text.split(separator)` is never empty. |
| `Paragraphs.SplitJoined` | converter-script.js:171-177 | `split` cuts at separator matches. A separator match runs from each piece's end to the next piece's start, and the last piece reaches the end of the text. |
| `Paragraphs.SplitSeparatorFree` | converter-script.js:171-177 | No separator match starts inside a piece, so `split` cuts at the leftmost separator matches. |
| `Paragraphs.SplitKeepsVisible` | converter-script.js:171-177 | Every non-whitespace character of the text lies inside some piece. |
| `Paragraphs.KeepNonBlank` | converter-script.js:171-177 | `filter(p => p.trim() !== '')`: no longer than its input, and every kept piece has a non-empty trimmed form. |
| `Paragraphs.KeepNonBlankMembers` | converter-script.js:171-177 | The filter keeps exactly the pieces that are not whitespace only. |
| `Paragraphs.KeepNonBlankOrder` | converter-script.js:171-177 | The filter's result is the non-blank pieces taken at strictly increasing positions: each non-blank piece appears once, in input order, and nothing else appears. |
| `Paragraphs.SplitIntoParagraphs` | converter-script.js:168-179 | `splitIntoParagraphs`: every paragraph has a non-empty trimmed form. |
| `Paragraphs.ParagraphsArePieces` | converter-script.js:168-179 | A string is a paragraph exactly when it is a piece of the split and not whitespace only. |
| `Paragraphs.ParagraphsInOrder` | converter-script.js:168-179 | The paragraphs are the non-blank pieces of the split, each once, in their order in the text. |
| `Paragraphs.ParagraphsKeepVisible` | converter-script.js:168-179 | Every non-whitespace character of the text lies in a piece that is a paragraph. |
| `Kana.HiraganaOf` | converter-script.js:218-221 | A character in U+30A1–U+30F6 moves down by 0x60, any other is kept, and no result lies in that range. |
| `Kana.KatakanaToHiragana` | converter-script.js:217-222 | The result has the input's length and maps each character with `HiraganaOf`. |
| `Kana.NoKatakanaLeft` | converter-script.js:217-222 | The output holds no character in U+30A1–U+30F6. |
| `Kana.Idempotent` | converter-script.js:217-222 | Converting twice is converting once. |
| `Furigana.RegexTest` | converter-script.js:197 | A failed `test` leaves `lastIndex` at 0. A `lastIndex` beyond the subject fails. |
| `Furigana.Exclusion` | converter-script.js:188-197 | Without kanji the test is not run and `lastIndex` is unchanged. A non-global expression tests from the start. |
| `Furigana.HasKanji` | converter-script.js:197 | Defined as: some character lies in U+4E00–U+9FAF, the class of `/[\u4e00-\u9faf]/.test(surface)`. |
| `Furigana.InDict` | converter-script.js:199 | Defined as the truthiness of `settings.customDict[surface]`: the entry is present and not the empty string. |
| `Furigana.Html` | converter-script.js:197-210 | Defined as the appended text of a fragment: `<ruby>{surface}<rt>{reading}</rt></ruby>` for ruby, as at :200 and :204, and the bare surface otherwise, as at :206 and :209. |
| `Furigana.PieceOf` | converter-script.js:197-210 | The fragment's base is the surface. It is ruby exactly for a non-excluded kanji surface with a truthy dictionary entry, which wins, or with a reading other than `*` and the surface, shown in hiragana. |
| `Furigana.LastIndexAfter` | converter-script.js:188-197 | The exclusion expression's `lastIndex` after the first n tokens. Without the `g` flag it stays 0 throughout. |
| `Furigana.Fragments` | converter-script.js:194-211 | The fragments of the first n tokens, one per token. |
| `Furigana.Annotated` | converter-script.js:182-214 | Defined as the text itself without a tokenizer or with furigana off, and otherwise the rendered fragments of the tokens. `AddFurigana` is proved equal to it. |
| `Furigana.AddFurigana` | converter-script.js:182-214 | Without a tokenizer, or with furigana off, the result is the text. Otherwise it is the concatenated HTML of the tokens' fragments, computed with the `lastIndex` threaded through the tokens. |
| `Furigana.StripRuby` | converter-script.js:194-213 | Removing ruby markup and readings from the fragments of the first n tokens gives those tokens' surfaces, concatenated in order. Annotation therefore loses no text. |
| `Furigana.RubyExactly` | converter-script.js:197-210 | Fragment k belongs to token k. It is wrapped in ruby exactly when its surface holds a kanji, the stateful exclusion test fails, and a reading is known. The reading is the dictionary entry, or else the hiragana reading. |
| `Furigana.ExcludedStaysBare` | converter-script.js:188-197 | With a non-global exclusion expression, a token whose surface the pattern matches is never annotated. |
| `Furigana.FindWords` | converter-script.js:32 | The search of a literal alternation such as the default exclusion list. A match it reports ends between the search position and the end of the subject. |
| `Furigana.FindWordsLeftmost` | converter-script.js:32 | The reported match is the first alternative matching at the leftmost position where any alternative matches. There is no match exactly when no alternative matches at or after the search position. |
| `Furigana.GlobalExclusionSkips` | converter-script.js:188-197 | With the `g` flag and the pattern `私`, the second of two `私` tokens is annotated. Without the flag it stays bare. |
| `Render.AppendTocEntries` | converter-script.js:229-231 | The first loop appends one entry per chapter, in order. |
| `Render.AppendParagraphs` | converter-script.js:242-249 | The inner loop appends, for each paragraph in order, its `<p>` with furigana when its trimmed form is not empty. |
| `Render.AppendChapters` | converter-script.js:236-250 | The second loop appends, per chapter, its `<h4>` heading and then its paragraphs. |
| `Strings.NatToDecimal` | converter-script.js:230 | The decimal text of `${index + 1}`. It is non-empty, has one digit exactly below ten, and holds only ASCII digits. |
| `Render.TocOpen` | converter-script.js:226 | Defined as the literal opening of the table of contents, holding the title between two `<h1>` tags. |
| `Render.TocEntry` | converter-script.js:230 | Defined as `<li><a href="#chapter{n}">第{number}章：{title}</a></li>` and a line feed. |
| `Render.Heading` | converter-script.js:237 | Defined as `<h4 id="chapter{n}">第{number}章：{title}</h4>` and a line feed. |
| `Render.ParagraphHtml` | converter-script.js:242-248 | Defined as `<p>`, the trimmed paragraph with furigana, `</p>` and a line feed when the trimmed paragraph is non-empty, and nothing otherwise. |
| `Render.ChapterHtml` | converter-script.js:236-249 | Defined as a chapter's heading followed by the HTML of its paragraphs, in order. |
| `Render.Page` | converter-script.js:225-254 | Defined as the table-of-contents opening, the entries, the content opening, the chapter parts and the closing `</div>`. |
| `Render.GenerateHTML` | converter-script.js:225-254 | The page is the table-of-contents opening, the entries, the content opening, the chapters and the closing `</div>`. |
| `Render.AnchorsDistinct` | converter-script.js:230-237 | Two chapter anchors are equal exactly when their positions are, so every link targets exactly one heading. |
| `Render.EntryMatchesHeading` | converter-script.js:230-237 | Entry i links to `#chapter{i+1}`. Chapter i's part starts with the `<h4>` of that id, and both carry the label `第{number}章：{title}`. |
| `Render.ParagraphAlwaysWrapped` | converter-script.js:240-248 | Every paragraph's trimmed form is non-empty, so each paragraph gets a `<p>` around its trimmed form with furigana. |
| `Render.ConvertText` | converter-script.js:257-271 | Blank input is refused. While the tokenizer is loading with furigana on, conversion is refused. Otherwise the result is the page of the parsed text. |

## Left out

- The chapter expression is not run by a general regular-expression engine. `ParseText` takes the `exec` scan as a list of match records whose starts are strictly increasing and inside the text. A custom chapter pattern whose scan reports an empty match makes the loop of `parseText` run forever, because `exec` does not advance `lastIndex` past an empty match it reports. An empty match that `exec` never reports, because a longer alternative wins, does no harm. A reported match without a group 2 makes `matches[2].trim()` throw a `TypeError` at converter-script.js:116. That includes a pattern with no groups at all and one whose group 2 is optional. A pattern that never matches falls back to the single chapter instead. Neither failure is modelled. Only the default pattern has a concrete scanner.
- Strings are sequences of Unicode code points, whereas JavaScript indexes UTF-16 code units. The two agree for text in the Basic Multilingual Plane. For the default chapter pattern and the paragraph separators they also agree on all other text. Every literal and class in those expressions lies in the plane, and `(.+)` runs to a line end. So no match or capture can begin or end inside a surrogate pair. A custom chapter pattern can split a pair, for example `第(\d+)章[:：](.)` on a title starting with `𠮷`. Its group 2 is then a lone surrogate, which a character of the model cannot hold. That case is not modelled. The exclusion expression's `lastIndex` is the exception. It counts UTF-16 units, and it is carried from token to token. After a token holding a character outside the plane, the source and the model can resume the next token's search at different positions. Example: the pattern `私`, then the token `𠮷私` (source `lastIndex` 3, model 2), then the token `見見私`. The source annotates `見見私`; the model leaves it bare.
- `parseText` and `addFurigana` compile the user's patterns at run time, at converter-script.js:107 and converter-script.js:188. An invalid pattern throws `SyntaxError` there, and the conversion ends with no output. The model takes the patterns as already-compiled searches, so it cannot express this failure.
- `addFurigana`'s exclusion expression is a user-supplied regular expression. It is modelled by a search function: the end of the leftmost match at or after a position. Only a literal alternation such as the default `(のだ|した|…)` has a concrete search.
- The kuromoji tokenizer and its asynchronous dictionary load are not modelled. The tokenizer is a function parameter. Readiness is one boolean, because `tokenizer` and `isTokenizerLoaded` are set together.
- Custom dictionary values are strings, and an entry is truthy when present and non-empty. Lookups through the object prototype cannot matter, because only surfaces holding a kanji are looked up.
- These are browser input and output, or foreign calls: DOM reads of the inputs (they are parameters), `alert` (an error value), writing the preview, the success message, download, clipboard, the settings modal, settings persistence in `localStorage`, dark mode, and all of script.js.

## Findings

| source | as written | input that shows it | evidently intended | confidence | as-written member | corrected member |
|---|---|---|---|---|---|---|
| converter-script.js:188 | The exclusion expression is built with the `g` flag. Each `test` at converter-script.js:197 then resumes at the `lastIndex` the previous successful test left. | Exclusion pattern `私` (also part of the default list), tokens `私` `私` read `ワタシ`: the first stays bare and the second becomes `<ruby>私<rt>わたし</rt></ruby>`. | Every token whose surface the exclusion pattern matches stays bare, wherever it stands. | not executed | `Furigana.GlobalExclusionSkips` | `Furigana.ExcludedStaysBare` |

The `global` field of `Furigana.Annotator` selects one of the two behaviours
throughout the model. `true` behaves as written; `false` is the corrected
expression without the `g` flag.
