/**
  The JavaScript built-ins the search widget relies on, with the semantics of
  the ECMAScript language specification:
  - `String.prototype.slice(begin, end)` and `Array.prototype.slice(begin, end)`,
    which share one rule: a negative index counts back from the end, and every
    index is clamped to the sequence;
  - `String.prototype.trim()`, which removes leading and trailing white space
    and line terminators.
  Strings are sequences of characters; the UTF-16 code-unit view of JavaScript
  strings is not modelled.
 */
module JsBuiltins {

  function Max0(x: int): nat {
    if x < 0 then 0 else x
  }

  /** The position `slice` uses for an index argument: negative indices count
      from the end, and the result is clamped into 0..len. */
  function RelativeIndex(i: int, len: nat): (r: nat)
    ensures r <= len
    ensures 0 <= i <= len ==> r == i
    ensures len < i ==> r == len
    ensures i < 0 && 0 <= len + i ==> r == len + i
    ensures len + i < 0 ==> r == 0
  {
    if i < 0 then Max0(len + i)
    else if i < len then i
    else len
  }

  /** `s.slice(begin, end)` on a string or an array. */
  function JsSlice<T>(s: seq<T>, begin: int, end: int): (r: seq<T>)
    ensures |r| <= |s|
    // in-range arguments give the ordinary substring
    ensures 0 <= begin <= end <= |s| ==> r == s[begin..end]
    // a negative begin is taken from the end of the string
    ensures begin < 0 && 0 <= |s| + begin <= end <= |s| ==> r == s[|s| + begin..end]
    // an end past the length is clamped to it
    ensures 0 <= begin <= |s| <= end ==> r == s[begin..]
    ensures begin < 0 && |s| <= end ==> r == s[Max0(|s| + begin)..]
    // a negative begin reaching back past the front is clamped to 0
    ensures |s| + begin < 0 && 0 <= end <= |s| ==> r == s[..end]
    // a negative end is also taken from the end of the string
    ensures 0 <= begin <= |s| + end && end < 0 ==> r == s[begin..|s| + end]
    // an end at or before the (resolved) begin, or a begin past the length,
    // gives the empty string
    ensures 0 <= end <= begin ==> r == []
    ensures |s| <= begin ==> r == []
    ensures begin < 0 && 0 <= end <= |s| + begin ==> r == []
    ensures 0 <= begin && end < 0 && |s| + end <= begin ==> r == []
    // with both indices negative, both are taken from the end
    ensures begin < 0 && end < 0 ==>
      r == (if Max0(|s| + begin) < Max0(|s| + end) then s[Max0(|s| + begin)..Max0(|s| + end)] else [])
    // a non-negative end bounds the length by the distance from the (clamped) begin
    ensures 0 <= end ==> |r| <= Max0(end - Max0(begin))
  {
    var from := RelativeIndex(begin, |s|);
    var to := RelativeIndex(end, |s|);
    if from < to then s[from..to] else []
  }

  /** WhiteSpace and LineTerminator code points, as `trim` removes them. */
  predicate IsJsWhitespace(c: char) {
    || c == '\t' || c == '\n' || c == '\U{000B}' || c == '\U{000C}' || c == '\r'
    || c == ' ' || c == '\U{00A0}' || c == '\U{1680}'
    || ('\U{2000}' <= c <= '\U{200A}')
    || c == '\U{2028}' || c == '\U{2029}' || c == '\U{202F}' || c == '\U{205F}'
    || c == '\U{3000}' || c == '\U{FEFF}'
  }

  /** Number of white-space characters at the front of `s`. */
  function LeadingSpace(s: string): (n: nat)
    ensures n <= |s|
    ensures forall i :: 0 <= i < n ==> IsJsWhitespace(s[i])
    ensures n < |s| ==> !IsJsWhitespace(s[n])
  {
    if s == [] || !IsJsWhitespace(s[0]) then 0
    else 1 + LeadingSpace(s[1..])
  }

  /** Number of white-space characters at the back of `s`. */
  function TrailingSpace(s: string): (n: nat)
    ensures n <= |s|
    ensures forall i :: |s| - n <= i < |s| ==> IsJsWhitespace(s[i])
    ensures n < |s| ==> !IsJsWhitespace(s[|s| - 1 - n])
  {
    if s == [] || !IsJsWhitespace(s[|s| - 1]) then 0
    else 1 + TrailingSpace(s[..|s| - 1])
  }

  /** `s.trim()`. */
  function Trim(s: string): (r: string)
    // the result is empty exactly when the whole string is white space
    ensures r == [] <==> forall i :: 0 <= i < |s| ==> IsJsWhitespace(s[i])
    // otherwise it is the part of `s` between its leading and trailing white
    // space, and it neither starts nor ends with white space
    ensures r != [] ==>
      && LeadingSpace(s) + |r| + TrailingSpace(s) == |s|
      && r == s[LeadingSpace(s)..LeadingSpace(s) + |r|]
      && !IsJsWhitespace(r[0]) && !IsJsWhitespace(r[|r| - 1])
  {
    var lead := LeadingSpace(s);
    if lead == |s| then ""
    else
      var trail := TrailingSpace(s);
      assert !IsJsWhitespace(s[lead]);
      s[lead..|s| - trail]
  }
}
