/**
  * Character classes and string helpers the converter relies on: the
  * whitespace set shared by the regular-expression class `\s` and by
  * `String.prototype.trim`, trimming itself, concatenation of a list of
  * strings, and the decimal rendering of a chapter index.
  */
module Strings {

  /** ECMAScript WhiteSpace and LineTerminator code points: exactly what `\s`
      matches and what `trim()` removes (the ideographic space U+3000 included). */
  predicate IsWs(c: char) {
    var n := c as int;
    (0x09 <= n <= 0x0D) || n == 0x20 || n == 0xA0 || n == 0x1680 || (0x2000 <= n <= 0x200A)
    || n == 0x2028 || n == 0x2029 || n == 0x202F || n == 0x205F || n == 0x3000 || n == 0xFEFF
  }

  /** The ECMAScript LineTerminator code points, which `.` does not match. */
  predicate IsLineTerminator(c: char) {
    c == '\n' || c == '\r' || c as int == 0x2028 || c as int == 0x2029
  }

  /** A string holding nothing but whitespace (the empty string included). */
  predicate IsBlank(s: string) {
    forall i :: 0 <= i < |s| ==> IsWs(s[i])
  }

  /** `String.prototype.trim`: leading and trailing whitespace removed. */
  function Trim(s: string): (r: string)
    ensures |r| <= |s|
    decreases |s|
  {
    if |s| > 0 && IsWs(s[0]) then Trim(s[1..])
    else if |s| > 0 && IsWs(s[|s| - 1]) then Trim(s[..|s| - 1])
    else s
  }

  /** Trimming keeps the slice `s[a..b]` between whitespace-only margins; a
      non-empty result starts and ends with non-whitespace. */
  predicate Margins(s: string, a: nat, b: nat)
  {
    a <= b <= |s|
    && (forall i :: 0 <= i < a ==> IsWs(s[i]))
    && (forall i :: b <= i < |s| ==> IsWs(s[i]))
    && (a < b ==> !IsWs(s[a]) && !IsWs(s[b - 1]))
  }

  /** Margins of `s[1..]` shifted by one are margins of `s` when `s[0]` is whitespace. */
  lemma ShiftMargins(s: string, a: nat, b: nat)
    requires |s| > 0 && IsWs(s[0]) && Margins(s[1..], a, b)
    ensures Margins(s, a + 1, b + 1) && s[1..][a..b] == s[a + 1..b + 1]
  {
    var t := s[1..];
    forall i | 1 <= i < a + 1
      ensures IsWs(s[i])
    {
      assert s[i] == t[i - 1];
    }
    forall i | b + 1 <= i < |s|
      ensures IsWs(s[i])
    {
      assert s[i] == t[i - 1];
    }
  }

  /** Margins of `s` without its last character are margins of `s` when that
      character is whitespace. */
  lemma ExtendMargins(s: string, a: nat, b: nat)
    requires |s| > 0 && IsWs(s[|s| - 1]) && Margins(s[..|s| - 1], a, b)
    ensures Margins(s, a, b) && s[..|s| - 1][a..b] == s[a..b]
  {
  }

  lemma {:induction false} TrimBounds(s: string) returns (a: nat, b: nat)
    ensures Margins(s, a, b) && Trim(s) == s[a..b]
    decreases |s|
  {
    if |s| > 0 && IsWs(s[0]) {
      var a', b' := TrimBounds(s[1..]);
      ShiftMargins(s, a', b');
      a, b := a' + 1, b' + 1;
    } else if |s| > 0 && IsWs(s[|s| - 1]) {
      a, b := TrimBounds(s[..|s| - 1]);
      ExtendMargins(s, a, b);
    } else {
      a, b := 0, |s|;
    }
  }

  /** A trimmed string is empty or starts and ends with a non-whitespace character. */
  lemma TrimEdges(s: string)
    ensures var r := Trim(s); r == [] || (!IsWs(r[0]) && !IsWs(r[|r| - 1]))
  {
    var a, b := TrimBounds(s);
  }

  /** Trimming yields the empty string exactly for blank input. */
  lemma {:induction false} TrimEmptyIffBlank(s: string)
    ensures Trim(s) == [] <==> IsBlank(s)
  {
    var a, b := TrimBounds(s);
    if a < b {
      assert !IsWs(s[a]);
    }
  }

  /** Trimming removes exactly the longest blank prefix and the longest blank
      suffix: what remains is empty or has non-whitespace at both ends. */
  lemma {:induction false} TrimIsInfix(s: string)
    ensures exists a, b :: 0 <= a <= b <= |s| && Trim(s) == s[a..b]
                           && IsBlank(s[..a]) && IsBlank(s[b..])
                           && (a < b ==> !IsWs(s[a]) && !IsWs(s[b - 1]))
  {
    var a, b := TrimBounds(s);
    assert IsBlank(s[..a]) && IsBlank(s[b..]);
  }

  /** Trimming twice is trimming once. */
  lemma {:induction false} TrimIdempotent(s: string)
    ensures Trim(Trim(s)) == Trim(s)
  {
    TrimEdges(s);
  }

  /** A string that starts with non-whitespace keeps its first `n`
      characters through trimming whenever the `n`-th is not whitespace. */
  lemma {:induction false} TrimKeepsPrefixTo(s: string, n: nat)
    requires 1 <= n <= |s|
    requires !IsWs(s[0]) && !IsWs(s[n - 1])
    ensures n <= |Trim(s)| && Trim(s)[..n] == s[..n]
  {
    var a, b := TrimBounds(s);
  }

  /** A string that starts with non-whitespace loses only a whitespace
      suffix: its trimmed form is a prefix of it ending in non-whitespace. */
  lemma {:induction false} TrimSolidStart(s: string)
    requires 0 < |s| && !IsWs(s[0])
    ensures 0 < |Trim(s)| <= |s| && Trim(s) == s[..|Trim(s)|] && !IsWs(s[|Trim(s)| - 1])
  {
    var a, b := TrimBounds(s);
  }

  /** The same for a slice `s[lo..hi]`. */
  lemma TrimKeepsSlicePrefixTo(s: string, lo: nat, hi: nat, n: nat)
    requires 1 <= n && lo + n <= hi <= |s|
    requires !IsWs(s[lo]) && !IsWs(s[lo + n - 1])
    ensures n <= |Trim(s[lo..hi])| && Trim(s[lo..hi])[..n] == s[lo..lo + n]
  {
    var sub := s[lo..hi];
    assert sub[0] == s[lo] && sub[n - 1] == s[lo + n - 1];
    TrimKeepsPrefixTo(sub, n);
    assert sub[..n] == s[lo..lo + n];
  }

  /** Concatenation of a list of strings, left to right. */
  function Concat(ss: seq<string>): (r: string)
    ensures |ss| == 1 ==> r == ss[0]
    decreases |ss|
  {
    if |ss| == 0 then "" else Concat(ss[..|ss| - 1]) + ss[|ss| - 1]
  }

  /** The ASCII digit for a value below ten. */
  function DigitChar(d: nat): (c: char)
    requires d < 10
    ensures '0' <= c <= '9' && c as int - '0' as int == d
  {
    ('0' as int + d) as char
  }

  /** Decimal rendering of a natural number, as a template literal prints it. */
  function NatToDecimal(n: nat): (r: string)
    ensures 1 <= |r|
    ensures |r| == 1 <==> n < 10
    ensures forall i :: 0 <= i < |r| ==> '0' <= r[i] <= '9'
    decreases n
  {
    if n < 10 then [DigitChar(n)] else NatToDecimal(n / 10) + [DigitChar(n % 10)]
  }

  /** Distinct numbers have distinct decimal renderings. */
  lemma {:induction false} NatToDecimalInjective(a: nat, b: nat)
    requires NatToDecimal(a) == NatToDecimal(b)
    ensures a == b
    decreases a
  {
    var da, db := NatToDecimal(a), NatToDecimal(b);
    if a < 10 {
      assert b < 10;
      assert da[0] == DigitChar(a) && db[0] == DigitChar(b);
    } else {
      assert b >= 10;
      assert da[..|da| - 1] == NatToDecimal(a / 10);
      assert db[..|db| - 1] == NatToDecimal(b / 10);
      NatToDecimalInjective(a / 10, b / 10);
      assert da[|da| - 1] == DigitChar(a % 10) && db[|db| - 1] == DigitChar(b % 10);
    }
  }
}
