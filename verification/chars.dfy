/** Character classes used by the inspector's string handling.

    Two different notions of whitespace are involved:
    - ECMAScript `\s` (and `String.prototype.trim`), used by the selector
      builder: the WhiteSpace and LineTerminator code points of ECMAScript;
    - DOM "ASCII whitespace", used by `classList` to split the class attribute.
 */
module Chars {

  /** ECMAScript WhiteSpace or LineTerminator: what `\s` and `trim` match. */
  predicate IsJsWs(c: char) {
    var n := c as int;
    || n == 0x09 || n == 0x0A || n == 0x0B || n == 0x0C || n == 0x0D
    || n == 0x20 || n == 0xA0 || n == 0x1680
    || (0x2000 <= n <= 0x200A)
    || n == 0x2028 || n == 0x2029 || n == 0x202F || n == 0x205F
    || n == 0x3000 || n == 0xFEFF
  }

  /** DOM ASCII whitespace: TAB, LF, FF, CR and SPACE. */
  predicate IsAsciiWs(c: char) {
    c == '\t' || c == '\n' || c as int == 0x0C || c == '\r' || c == ' '
  }

  /** Every separator `classList` splits on is also one `\s` matches. */
  lemma AsciiWsIsJsWs(c: char)
    requires IsAsciiWs(c)
    ensures IsJsWs(c)
  {
  }

  function LowerChar(c: char): (r: char)
    ensures 'A' <= c <= 'Z' ==> 'a' <= r <= 'z' && r as int - c as int == 32
    ensures !('A' <= c <= 'Z') ==> r == c
  {
    if 'A' <= c <= 'Z' then (c as int + 32) as char else c
  }

  /** `String.prototype.toLowerCase`, restricted to the ASCII letters. */
  function Lower(s: string): (r: string)
    ensures |r| == |s|
    ensures forall k :: 0 <= k < |s| ==> r[k] == LowerChar(s[k])
  {
    if |s| == 0 then [] else [LowerChar(s[0])] + Lower(s[1..])
  }

  /** Lower-casing neither creates nor removes whitespace. */
  lemma LowerKeepsWs(s: string, k: int)
    requires 0 <= k < |s|
    ensures IsJsWs(Lower(s)[k]) <==> IsJsWs(s[k])
  {
  }
}
