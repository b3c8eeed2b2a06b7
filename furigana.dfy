/**
  * Furigana annotation (`addFurigana` in converter-script.js).
  *
  * The tokenizer's output is taken as a given list of tokens. Each token
  * whose surface holds a kanji and is not excluded becomes
  * `<ruby>surface<rt>reading</rt></ruby>`, when a reading is known; any
  * other token is copied as it is. The exclusion test is a regular
  * expression compiled with the `g` flag, so each `test` call starts its
  * search at the `lastIndex` the previous call left behind: a success
  * leaves the end of the match there, a failure resets it to 0. The
  * `global` parameter selects that behaviour (as written) or a test that
  * always searches from the start (as evidently intended).
  */
module Furigana {
  import opened Strings
  import opened Wrappers
  import opened Kana

  /** A token of the morphological analyser: its surface form and its reading
      (`*` when unknown). */
  datatype Token = Token(surface: string, reading: string)

  /** The exclusion pattern as a search: `find(s, from)` is the end of the
      leftmost match in `s` starting at or after `from`, if there is one. */
  type Finder = (string, nat) -> Option<nat>

  /** The custom dictionary: surface form to reading. */
  type Dict = map<string, string>

  /** A kanji of the class `[一-龯]`. */
  predicate IsKanji(c: char) {
    0x4E00 <= c as int <= 0x9FAF
  }

  predicate HasKanji(s: string) {
    exists i :: 0 <= i < |s| && IsKanji(s[i])
  }

  /** `RegExp.prototype.test` on `s` with the regular expression's
      `lastIndex`: whether it matched, and the new `lastIndex`. */
  function RegexTest(find: Finder, s: string, lastIndex: nat): (r: (bool, nat))
    ensures !r.0 ==> r.1 == 0
    ensures lastIndex > |s| ==> !r.0
  {
    if lastIndex > |s| then (false, 0)
    else match find(s, lastIndex)
      case Some(e) => (true, e)
      case None => (false, 0)
  }

  /** The exclusion test of one token, only reached when the surface holds a
      kanji: whether it excludes the token, and the `lastIndex` it leaves. A
      non-global expression always searches from 0 and leaves `lastIndex` alone. */
  function Exclusion(find: Finder, global: bool, t: Token, lastIndex: nat): (r: (bool, nat))
    ensures !global ==> r == (HasKanji(t.surface) && find(t.surface, 0).Some?, lastIndex)
    ensures !HasKanji(t.surface) ==> r == (false, lastIndex)
  {
    if !HasKanji(t.surface) then (false, lastIndex)
    else if global then RegexTest(find, t.surface, lastIndex)
    else (RegexTest(find, t.surface, 0).0, lastIndex)
  }

  /** A fragment of the output: a bare surface or a ruby annotation. */
  datatype Piece = Bare(text: string) | Ruby(base: string, reading: string)

  /** The HTML text of a fragment. */
  function Html(p: Piece): string {
    match p
    case Bare(t) => t
    case Ruby(b, r) => "<ruby>" + b + "<rt>" + r + "</rt></ruby>"
  }

  /** What remains of a fragment once its ruby markup and reading are removed. */
  function Base(p: Piece): string {
    match p
    case Bare(t) => t
    case Ruby(b, _) => b
  }

  /** A dictionary entry counts when present and non-empty (truthy). */
  predicate InDict(dict: Dict, surface: string) {
    surface in dict && dict[surface] != ""
  }

  /** The fragment of one token: a kanji surface not excluded is annotated
      with its dictionary entry, else with its reading turned to hiragana
      when that reading is known and differs from the surface; everything
      else stays bare. */
  function PieceOf(dict: Dict, t: Token, excluded: bool): (p: Piece)
    ensures Base(p) == t.surface
    ensures p.Ruby? <==> HasKanji(t.surface) && !excluded
                          && (InDict(dict, t.surface) || (t.reading != "*" && t.reading != t.surface))
    ensures p.Ruby? && InDict(dict, t.surface) ==> p.reading == dict[t.surface]
    ensures p.Ruby? && !InDict(dict, t.surface) ==> p.reading == KatakanaToHiragana(t.reading)
  {
    if HasKanji(t.surface) && !excluded then
      if InDict(dict, t.surface) then Ruby(t.surface, dict[t.surface])
      else if t.reading != "*" && t.reading != t.surface then Ruby(t.surface, KatakanaToHiragana(t.reading))
      else Bare(t.surface)
    else Bare(t.surface)
  }

  /** The exclusion expression's `lastIndex` once the first `n` tokens are done. */
  function LastIndexAfter(find: Finder, global: bool, tokens: seq<Token>, n: nat): (r: nat)
    requires n <= |tokens|
    ensures !global ==> r == 0
  {
    if n == 0 then 0
    else Exclusion(find, global, tokens[n - 1], LastIndexAfter(find, global, tokens, n - 1)).1
  }

  /** Whether token `k` is excluded, given the state the earlier tokens left. */
  function ExcludedAt(find: Finder, global: bool, tokens: seq<Token>, k: nat): bool
    requires k < |tokens|
  {
    Exclusion(find, global, tokens[k], LastIndexAfter(find, global, tokens, k)).0
  }

  /** The fragments of the first `n` tokens, in order. */
  function Fragments(find: Finder, global: bool, dict: Dict, tokens: seq<Token>, n: nat): (r: seq<Piece>)
    requires n <= |tokens|
    ensures |r| == n
  {
    if n == 0 then []
    else Fragments(find, global, dict, tokens, n - 1) + [PieceOf(dict, tokens[n - 1], ExcludedAt(find, global, tokens, n - 1))]
  }

  /** The fragment of token `k` is decided by that token alone and by the
      state the tokens before it left. */
  lemma {:induction false} FragmentAt(find: Finder, global: bool, dict: Dict, tokens: seq<Token>, n: nat, k: nat)
    requires k < n <= |tokens|
    ensures Fragments(find, global, dict, tokens, n)[k] == PieceOf(dict, tokens[k], ExcludedAt(find, global, tokens, k))
    decreases n
  {
    if k < n - 1 {
      FragmentAt(find, global, dict, tokens, n - 1, k);
    }
  }

  /** The HTML of a list of fragments, left to right. */
  function Render(ps: seq<Piece>): string {
    if |ps| == 0 then "" else Render(ps[..|ps| - 1]) + Html(ps[|ps| - 1])
  }

  /** The text of a list of fragments with ruby markup and readings removed. */
  function Strip(ps: seq<Piece>): string {
    if |ps| == 0 then "" else Strip(ps[..|ps| - 1]) + Base(ps[|ps| - 1])
  }

  /** The surfaces of the first `n` tokens, concatenated. */
  function Spelled(tokens: seq<Token>, n: nat): string
    requires n <= |tokens|
  {
    if n == 0 then "" else Spelled(tokens, n - 1) + tokens[n - 1].surface
  }

  /** Rendering one more fragment appends its HTML. */
  lemma RenderSnoc(ps: seq<Piece>, p: Piece)
    ensures Render(ps + [p]) == Render(ps) + Html(p)
  {
    assert (ps + [p])[..|ps|] == ps;
  }

  /** What `addFurigana` reads besides its argument: whether the tokenizer
      has loaded, the tokenizer itself, and the settings `autoFurigana`,
      `customDict` and `excludePatterns` (as a search). `global` is true for
      the expression as written, compiled with the `g` flag. */
  datatype Annotator = Annotator(
    tokenizerLoaded: bool,
    tokenize: string -> seq<Token>,
    autoFurigana: bool,
    dict: Dict,
    find: Finder,
    global: bool)

  /** The result of `addFurigana` on `text`. */
  function Annotated(a: Annotator, text: string): string {
    if !a.tokenizerLoaded || !a.autoFurigana then text
    else
      var tokens := a.tokenize(text);
      Render(Fragments(a.find, a.global, a.dict, tokens, |tokens|))
  }

  /** `addFurigana`: the text itself when there is no tokenizer or automatic
      furigana is off; otherwise the HTML of each token's fragment, in order,
      with the exclusion expression's `lastIndex` carried from token to token. */
  method AddFurigana(a: Annotator, text: string) returns (result: string)
    ensures !a.tokenizerLoaded || !a.autoFurigana ==> result == text
    ensures result == Annotated(a, text)
  {
    if !a.tokenizerLoaded || !a.autoFurigana {
      return text;
    }
    var tokens := a.tokenize(text);
    result := "";
    var lastIndex := 0;
    for i := 0 to |tokens|
      invariant result == Render(Fragments(a.find, a.global, a.dict, tokens, i))
      invariant lastIndex == LastIndexAfter(a.find, a.global, tokens, i)
    {
      var t := tokens[i];
      var test := Exclusion(a.find, a.global, t, lastIndex);
      RenderSnoc(Fragments(a.find, a.global, a.dict, tokens, i), PieceOf(a.dict, t, test.0));
      lastIndex := test.1;
      result := result + Html(PieceOf(a.dict, t, test.0));
    }
  }

  /** Removing the ruby markup and readings from the fragments gives back
      the tokens' surfaces: the plain text, when the tokens spell it. */
  lemma {:induction false} StripRuby(find: Finder, global: bool, dict: Dict, tokens: seq<Token>, n: nat)
    requires n <= |tokens|
    ensures Strip(Fragments(find, global, dict, tokens, n)) == Spelled(tokens, n)
    decreases n
  {
    if n > 0 {
      StripRuby(find, global, dict, tokens, n - 1);
      var ps := Fragments(find, global, dict, tokens, n);
      assert ps[..n - 1] == Fragments(find, global, dict, tokens, n - 1);
    }
  }

  /** Token `k` is wrapped in ruby exactly when its surface holds a kanji, the
      exclusion test (in the state the earlier tokens left) fails, and a
      reading is known: a truthy dictionary entry, which wins, or a reading
      other than `*` and other than the surface, shown in hiragana. */
  lemma RubyExactly(find: Finder, global: bool, dict: Dict, tokens: seq<Token>, k: nat)
    requires k < |tokens|
    ensures var p := Fragments(find, global, dict, tokens, |tokens|)[k];
            var t := tokens[k];
            && (p.Ruby? <==> HasKanji(t.surface) && !ExcludedAt(find, global, tokens, k)
                             && (InDict(dict, t.surface) || (t.reading != "*" && t.reading != t.surface)))
            && (p.Ruby? ==> p.base == t.surface)
            && (p.Ruby? && InDict(dict, t.surface) ==> p.reading == dict[t.surface])
            && (p.Ruby? && !InDict(dict, t.surface) ==> p.reading == KatakanaToHiragana(t.reading))
            && (p.Bare? ==> p.text == t.surface)
  {
    FragmentAt(find, global, dict, tokens, |tokens|, k);
  }

  /** With a non-global exclusion expression, a token whose surface the
      pattern matches is never annotated, wherever it stands. */
  lemma ExcludedStaysBare(find: Finder, dict: Dict, tokens: seq<Token>, k: nat)
    requires k < |tokens| && find(tokens[k].surface, 0).Some?
    ensures Fragments(find, false, dict, tokens, |tokens|)[k] == Bare(tokens[k].surface)
  {
    FragmentAt(find, false, dict, tokens, |tokens|, k);
  }

  /** The first alternative of a literal alternation `(w1|w2|...)` that
      matches at `p`, as the end of its match. */
  function WordAt(words: seq<string>, s: string, p: nat): (r: Option<nat>)
    requires p <= |s|
    ensures r.Some? ==> p <= r.value <= |s|
    decreases |words|
  {
    if |words| == 0 then None
    else if p + |words[0]| <= |s| && s[p..p + |words[0]|] == words[0] then Some(p + |words[0]|)
    else WordAt(words[1..], s, p)
  }

  /** The leftmost match of a literal alternation at or after `from`. */
  function FindWords(words: seq<string>, s: string, from: nat): (r: Option<nat>)
    ensures r.Some? ==> from <= r.value <= |s|
    decreases |s| + 1 - from
  {
    if from > |s| then None
    else
      var w := WordAt(words, s, from);
      if w.Some? then w else FindWords(words, s, from + 1)
  }

  /** `FindWords` is the search a `Finder` stands for: the match it reports
      is the first alternative matching at the leftmost position where any
      alternative matches, and there is none when no alternative matches at
      or after `from`. */
  lemma {:induction false} FindWordsLeftmost(words: seq<string>, s: string, from: nat) returns (p: nat)
    ensures FindWords(words, s, from).Some? ==>
              && from <= p <= |s| && WordAt(words, s, p) == FindWords(words, s, from)
              && forall p': nat :: from <= p' < p ==> WordAt(words, s, p').None?
    ensures FindWords(words, s, from).None? ==>
              forall p': nat :: from <= p' <= |s| ==> WordAt(words, s, p').None?
    decreases |s| + 1 - from
  {
    if from > |s| {
      p := from;
    } else if WordAt(words, s, from).Some? {
      p := from;
    } else {
      p := FindWordsLeftmost(words, s, from + 1);
    }
  }

  /** As written, the global exclusion expression lets a repeated excluded
      word through: with the pattern `私`, the second of two tokens `私` is
      annotated, because the first test left `lastIndex` at 1. */
  lemma GlobalExclusionSkips()
    ensures var find: Finder := (s, from) => FindWords(["私"], s, from);
            var tokens := [Token("私", "ワタシ"), Token("私", "ワタシ")];
            && Fragments(find, true, map[], tokens, 2) == [Bare("私"), Ruby("私", "わたし")]
            && Fragments(find, false, map[], tokens, 2) == [Bare("私"), Bare("私")]
  {
    var find: Finder := (s, from) => FindWords(["私"], s, from);
    var tokens := [Token("私", "ワタシ"), Token("私", "ワタシ")];
    assert IsKanji("私"[0]);
    assert "私"[0..1] == "私";
    assert find("私", 0) == Some(1);
    assert find("私", 1) == None;
    assert ExcludedAt(find, true, tokens, 0) && LastIndexAfter(find, true, tokens, 1) == 1;
    assert !ExcludedAt(find, true, tokens, 1);
    assert ExcludedAt(find, false, tokens, 1);
    assert KatakanaToHiragana("ワタシ") == "わたし";
  }
}
