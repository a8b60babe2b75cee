/**
 * String helpers with the meaning Python gives them: `needle in hay` on two
 * strings is a substring test, `str.isdigit`/`str.isalpha` hold of non-empty
 * strings whose every character is in the class, `str.replace(t, "")` removes
 * the non-overlapping occurrences of `t` found left to right, and
 * `sep.join(parts)` glues the parts with `sep` between neighbours.
 */
module Text {

  /** Python's `needle in hay` for two strings. */
  predicate Contains(hay: string, needle: string)
    decreases |hay|
  {
    |needle| <= |hay| && (hay[..|needle|] == needle || Contains(hay[1..], needle))
  }

  /** The empty string is a substring of every string (so `'' in s` is True). */
  lemma {:induction false} ContainsEmpty(hay: string)
    ensures Contains(hay, [])
  {
  }

  /** For a one-character needle the substring test is plain membership. */
  lemma {:induction false} ContainsSingle(hay: string, c: char)
    ensures Contains(hay, [c]) <==> c in hay
    decreases |hay|
  {
    if hay != [] {
      ContainsSingle(hay[1..], c);
      assert hay == [hay[0]] + hay[1..];
    }
  }

  /** A substring test that succeeds also succeeds in any string that extends the haystack on the left. */
  lemma {:induction false} ContainsWitness(hay: string, needle: string, i: nat)
    requires i + |needle| <= |hay| && hay[i..i + |needle|] == needle
    ensures Contains(hay, needle)
    decreases i
  {
    if i > 0 {
      assert hay[1..][i - 1..i - 1 + |needle|] == needle;
      ContainsWitness(hay[1..], needle, i - 1);
    }
  }

  /** Decimal digits as `str.isdigit` sees them: ASCII and full-width digits. */
  predicate IsDigitChar(c: char)
  {
    ('0' <= c <= '9') || ('０' <= c <= '９')
  }

  /**
   * Letters as `str.isalpha` sees them, for the scripts this system reads:
   * ASCII and Latin-1 letters, CJK ideographs, kana, hangul and full-width letters.
   */
  predicate IsAlphaChar(c: char)
  {
    || ('A' <= c <= 'Z') || ('a' <= c <= 'z')
    || ('À' <= c <= 'ÿ' && c != '×' && c != '÷')
    || ('ぁ' <= c <= 'ゖ') || ('ァ' <= c <= 'ヺ')
    || ('㐀' <= c <= '䶿') || ('一' <= c <= '鿿')
    || ('가' <= c <= '힣') || ('豈' <= c <= '﫿')
    || ('Ａ' <= c <= 'Ｚ') || ('ａ' <= c <= 'ｚ')
  }

  /** CJK unified ideographs, the characters this system corrects. */
  predicate IsCjk(c: char)
  {
    '一' <= c <= '鿿'
  }

  /** `s.isdigit()`: false for the empty string. */
  predicate IsDigits(s: string)
  {
    |s| > 0 && forall i :: 0 <= i < |s| ==> IsDigitChar(s[i])
  }

  /** `s.isalpha()`: false for the empty string. */
  predicate IsAlphas(s: string)
  {
    |s| > 0 && forall i :: 0 <= i < |s| ==> IsAlphaChar(s[i])
  }

  /** `s.replace(token, "")`: occurrences are removed left to right without rescanning what is left. */
  function RemoveAll(s: string, token: string): (r: string)
    requires token != []
    ensures |r| <= |s|
    ensures !Contains(s, token) ==> r == s
    decreases |s|
  {
    if |s| < |token| then s
    else if s[..|token|] == token then RemoveAll(s[|token|..], token)
    else [s[0]] + RemoveAll(s[1..], token)
  }

  /** Sum of the lengths of the parts. */
  function TotalLength(parts: seq<string>): nat
  {
    if parts == [] then 0 else |parts[0]| + TotalLength(parts[1..])
  }

  /** `sep.join(parts)`. */
  function Join(parts: seq<string>, sep: string): (r: string)
    ensures parts == [] ==> r == []
    ensures parts != [] ==> |r| == TotalLength(parts) + (|parts| - 1) * |sep|
    ensures |parts| == 1 ==> r == parts[0]
  {
    if parts == [] then []
    else if |parts| == 1 then parts[0]
    else parts[0] + sep + Join(parts[1..], sep)
  }
}
