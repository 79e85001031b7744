/**
 * The JavaScript string built-ins the extractor relies on: `String.prototype.trim`,
 * the `length` property (UTF-16 code units) and `String.prototype.includes`.
 * Strings are sequences of Unicode scalar values.
 */
module JsString {

  /** The characters `trim` removes: ECMAScript WhiteSpace and LineTerminator. */
  predicate IsWhiteSpace(c: char) {
    var n := c as int;
    || 0x09 <= n <= 0x0D          // tab, line feed, vertical tab, form feed, carriage return
    || n == 0x20 || n == 0xA0     // space, no-break space
    || n == 0x1680
    || 0x2000 <= n <= 0x200A      // en quad .. hair space
    || n == 0x2028 || n == 0x2029 // line and paragraph separator
    || n == 0x202F || n == 0x205F || n == 0x3000
    || n == 0xFEFF                // byte order mark
  }

  /** Number of white-space characters at the front of `s`. */
  function LeadingSpace(s: string): (n: nat)
    ensures n <= |s|
    ensures forall i :: 0 <= i < n ==> IsWhiteSpace(s[i])
    ensures n < |s| ==> !IsWhiteSpace(s[n])
  {
    if s == [] || !IsWhiteSpace(s[0]) then 0 else 1 + LeadingSpace(s[1..])
  }

  /** Number of white-space characters at the end of `s`. */
  function TrailingSpace(s: string): (n: nat)
    ensures n <= |s|
    ensures forall i :: |s| - n <= i < |s| ==> IsWhiteSpace(s[i])
    ensures n < |s| ==> !IsWhiteSpace(s[|s| - 1 - n])
  {
    if s == [] || !IsWhiteSpace(s[|s| - 1]) then 0 else 1 + TrailingSpace(s[..|s| - 1])
  }

  /** `s.trim()`: `s` without its leading and trailing white space. */
  function Trim(s: string): (r: string)
    ensures r == [] || (!IsWhiteSpace(r[0]) && !IsWhiteSpace(r[|r| - 1]))
    ensures r == [] <==> forall i :: 0 <= i < |s| ==> IsWhiteSpace(s[i])
  {
    var rest := s[LeadingSpace(s)..];
    rest[..|rest| - TrailingSpace(rest)]
  }

  /** A string with no white space at either end is left alone by `trim`. */
  lemma TrimKeepsTightString(s: string)
    requires s == [] || (!IsWhiteSpace(s[0]) && !IsWhiteSpace(s[|s| - 1]))
    ensures Trim(s) == s
  {
  }

  /** `trim` only removes white space: `s` is `Trim(s)` padded on both sides with white space. */
  lemma TrimRemovesOnlySpace(s: string)
    ensures exists a, b ::
              && 0 <= a <= b <= |s| && Trim(s) == s[a..b]
              && (forall i :: 0 <= i < a ==> IsWhiteSpace(s[i]))
              && (forall i :: b <= i < |s| ==> IsWhiteSpace(s[i]))
  {
    var a := LeadingSpace(s);
    var rest := s[a..];
    var b := a + |rest| - TrailingSpace(rest);
    assert forall i :: b <= i < |s| ==> s[i] == rest[i - a];
    assert Trim(s) == s[a..b];
  }

  /** The number of UTF-16 code units of `c`: what it adds to a JavaScript string's `length`. */
  function CodeUnits(c: char): nat {
    if c as int < 0x1_0000 then 1 else 2
  }

  /** `s.length` in JavaScript: characters outside the Basic Multilingual Plane count twice. */
  function Utf16Length(s: string): (n: nat)
    ensures |s| <= n <= 2 * |s|
  {
    if s == [] then 0 else CodeUnits(s[0]) + Utf16Length(s[1..])
  }

  /** For text inside the Basic Multilingual Plane, `length` is the number of characters. */
  lemma {:induction false} Utf16LengthOfBmp(s: string)
    requires forall i :: 0 <= i < |s| ==> s[i] as int < 0x1_0000
    ensures Utf16Length(s) == |s|
  {
    if s != [] {
      Utf16LengthOfBmp(s[1..]);
    }
  }

  /** `part` occurs in `s` starting at index `i`. */
  predicate OccursAt(s: string, part: string, i: int) {
    0 <= i && i + |part| <= |s| && s[i..i + |part|] == part
  }

  /** `s.includes(part)`. */
  predicate Includes(s: string, part: string)
    ensures Includes(s, part) ==> |part| <= |s|
    ensures part == [] ==> Includes(s, part)
  {
    assert part == [] ==> OccursAt(s, part, 0);
    exists i | 0 <= i <= |s| :: OccursAt(s, part, i)
  }

  /** A string that includes `part` includes every piece of `part`. */
  lemma IncludesPiece(s: string, part: string, lo: nat, hi: nat)
    requires Includes(s, part) && lo <= hi <= |part|
    ensures Includes(s, part[lo..hi])
  {
    var i :| 0 <= i <= |s| && OccursAt(s, part, i);
    var piece := s[i + lo..i + hi];
    assert forall k :: 0 <= k < hi - lo ==> piece[k] == part[lo + k];
    assert piece == part[lo..hi];
    assert OccursAt(s, part[lo..hi], i + lo);
  }

  /** Text followed by more text still includes what it included. */
  lemma IncludesExtended(s: string, more: string, part: string)
    requires Includes(s, part)
    ensures Includes(s + more, part)
  {
    var i :| 0 <= i <= |s| && OccursAt(s, part, i);
    assert (s + more)[i..i + |part|] == s[i..i + |part|];
    assert OccursAt(s + more, part, i);
  }
}
