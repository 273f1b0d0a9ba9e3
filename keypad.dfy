/**
 * The telephone keypad letter groups (the letter assignment of ITU-T
 * Recommendation E.161): which letters a digit key stands for, and the
 * inverse, which key carries a letter.
 */
module Keypad {
  import opened Wrappers

  /**
   * The letters on key `d`, in keypad order. The Go program keeps these in a
   * map keyed by the digit's value, so a character that is not '2'..'9'
   * ('0', '1', or anything else) finds no entry and yields no letters.
   */
  function KeyGroup(d: char): (g: seq<char>)
    ensures g == [] <==> !('2' <= d <= '9')
    ensures |g| == (if d == '7' || d == '9' then 4 else if '2' <= d <= '9' then 3 else 0)
    ensures forall i :: 0 <= i < |g| ==> 'a' <= g[i] <= 'z'
    ensures forall i, j :: 0 <= i < j < |g| ==> g[i] != g[j]
  {
    if d == '2' then "abc"
    else if d == '3' then "def"
    else if d == '4' then "ghi"
    else if d == '5' then "jkl"
    else if d == '6' then "mno"
    else if d == '7' then "pqrs"
    else if d == '8' then "tuv"
    else if d == '9' then "wxyz"
    else []
  }

  /** The key that carries letter `c`, if any: the inverse reading of the table. */
  function KeyOf(c: char): (d: Option<char>)
    ensures d.Some? <==> 'a' <= c <= 'z'
    ensures d.Some? ==> '2' <= d.value <= '9'
  {
    if 'a' <= c <= 'c' then Some('2')
    else if 'd' <= c <= 'f' then Some('3')
    else if 'g' <= c <= 'i' then Some('4')
    else if 'j' <= c <= 'l' then Some('5')
    else if 'm' <= c <= 'o' then Some('6')
    else if 'p' <= c <= 's' then Some('7')
    else if 't' <= c <= 'v' then Some('8')
    else if 'w' <= c <= 'z' then Some('9')
    else None
  }

  /** Every letter sits on exactly one key, and KeyGroup and KeyOf agree on which. */
  lemma KeyOfGroup(c: char, d: char)
    ensures c in KeyGroup(d) <==> KeyOf(c) == Some(d)
  {
  }

  /** `w` can be typed as `digits`: one letter per digit, each on that digit's key. */
  predicate KeyMatches(w: string, digits: string)
  {
    |w| == |digits| && forall i :: 0 <= i < |w| ==> w[i] in KeyGroup(digits[i])
  }

  /** The digit sequence that types `w`, or None when some character is on no key. */
  function DigitsFor(w: string): (r: Option<string>)
    ensures r.Some? <==> forall i :: 0 <= i < |w| ==> 'a' <= w[i] <= 'z'
    ensures r.Some? ==> KeyMatches(w, r.value)
  {
    if w == [] then Some([])
    else
      match (KeyOf(w[0]), DigitsFor(w[1..]))
      case (Some(d), Some(ds)) =>
        KeyOfGroup(w[0], d);
        Some([d] + ds)
      case _ => None
  }

  /** Conversely, a word matches only the digit sequence DigitsFor gives it. */
  lemma {:induction false} KeyMatchesUnique(w: string, digits: string)
    requires KeyMatches(w, digits)
    ensures DigitsFor(w) == Some(digits)
  {
    if w != [] {
      KeyOfGroup(w[0], digits[0]);
      assert KeyMatches(w[1..], digits[1..]) by {
        forall i | 0 <= i < |w| - 1 ensures w[1..][i] in KeyGroup(digits[1..][i]) {
          assert w[1..][i] == w[i + 1];
        }
      }
      KeyMatchesUnique(w[1..], digits[1..]);
      assert [digits[0]] + digits[1..] == digits;
    }
  }
}
