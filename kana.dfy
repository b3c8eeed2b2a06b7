/**
  * Katakana to hiragana (`katakanaToHiragana` in converter-script.js): every
  * character from U+30A1 (small a) to U+30F6 (small ke) is moved down by
  * 0x60 to its hiragana counterpart; every other character is kept.
  */
module Kana {

  /** The katakana the replacement pattern `[ァ-ヶ]` matches. */
  predicate IsShiftedKatakana(c: char) {
    0x30A1 <= c as int <= 0x30F6
  }

  /** The replacement callback: `String.fromCharCode(c - 0x60)`. */
  function HiraganaOf(c: char): (h: char)
    ensures IsShiftedKatakana(c) ==> h as int == c as int - 0x60
    ensures !IsShiftedKatakana(c) ==> h == c
    ensures !IsShiftedKatakana(h)
  {
    if IsShiftedKatakana(c) then (c as int - 0x60) as char else c
  }

  /** `katakanaToHiragana`: the global replacement, character by character. */
  function KatakanaToHiragana(s: string): (r: string)
    ensures |r| == |s|
    ensures forall i :: 0 <= i < |s| ==> r[i] == HiraganaOf(s[i])
    decreases |s|
  {
    if |s| == 0 then "" else [HiraganaOf(s[0])] + KatakanaToHiragana(s[1..])
  }

  /** No character of the result lies in the converted range. */
  lemma NoKatakanaLeft(s: string)
    ensures forall i :: 0 <= i < |s| ==> !IsShiftedKatakana(KatakanaToHiragana(s)[i])
  {
  }

  /** Converting twice is converting once. */
  lemma Idempotent(s: string)
    ensures KatakanaToHiragana(KatakanaToHiragana(s)) == KatakanaToHiragana(s)
  {
  }
}
