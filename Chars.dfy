/**
 * Character classes used by the place-name recogniser.
 *
 * Python's `str.islower` and `str.lower` are Unicode-aware; this model
 * restricts them to ASCII letters.
 */
module Chars {

  /** The characters the parser ignores when pulling out words:
      Python's `string.whitespace` (space, tab, newline, carriage return,
      vertical tab, form feed) and ' " , . - / < >. */
  predicate IsBoundary(c: char)
  {
    c in {' ', '\t', '\n', '\r', '\U{B}', '\U{C}', '\'', '"', ',', '.', '-', '/', '<', '>'}
  }

  /** No boundary character is a letter, so lowering leaves it alone and a
      word never starts or ends on one. */
  lemma BoundaryNotLetter(c: char)
    ensures IsBoundary(c) ==> !IsLowerChar(c) && !IsUpperChar(c) && LowerChar(c) == c
  {
  }

  /** `c.islower()` on a one-character string. */
  predicate IsLowerChar(c: char)
  {
    'a' <= c <= 'z'
  }

  predicate IsUpperChar(c: char)
  {
    'A' <= c <= 'Z'
  }

  /** `c.lower()` on ASCII: a capital becomes the small letter at the same
      place in the alphabet; any other character is left alone. */
  function LowerChar(c: char): (d: char)
    ensures !IsUpperChar(d)
    ensures !IsUpperChar(c) ==> d == c
    ensures IsUpperChar(c) ==> IsLowerChar(d) && d as int - 'a' as int == c as int - 'A' as int
  {
    if IsUpperChar(c) then (c as int - 'A' as int + 'a' as int) as char else c
  }

  /** `s.lower()`. */
  function Lower(s: string): string
  {
    seq(|s|, i requires 0 <= i < |s| => LowerChar(s[i]))
  }

  /** Two characters are the same letter up to ASCII case, or equal. */
  predicate SameIgnoringCase(c: char, d: char)
  {
    || c == d
    || (IsUpperChar(c) && d as int == c as int - 'A' as int + 'a' as int)
    || (IsUpperChar(d) && c as int == d as int - 'A' as int + 'a' as int)
  }

  /** Lowercasing identifies exactly the characters that agree up to case. */
  lemma LowerCharSame(c: char, d: char)
    ensures LowerChar(c) == LowerChar(d) <==> SameIgnoringCase(c, d)
  {
    if IsUpperChar(c) && IsUpperChar(d) && LowerChar(c) == LowerChar(d) {
      assert c as int == d as int;
    }
  }

  /** `a.lower() == b.lower()`, the comparison "ignoring case" of the
      region filter and of the name lookups, holds exactly when the two
      strings have the same length and agree character by character up to
      ASCII case. */
  lemma LowerSame(a: string, b: string)
    ensures Lower(a) == Lower(b) <==>
      |a| == |b| && forall i :: 0 <= i < |a| ==> SameIgnoringCase(a[i], b[i])
  {
    if Lower(a) == Lower(b) {
      forall i | 0 <= i < |a| ensures SameIgnoringCase(a[i], b[i]) {
        assert Lower(a)[i] == Lower(b)[i];
        LowerCharSame(a[i], b[i]);
      }
    }
    if |a| == |b| && forall i :: 0 <= i < |a| ==> SameIgnoringCase(a[i], b[i]) {
      forall i | 0 <= i < |a| ensures Lower(a)[i] == Lower(b)[i] {
        LowerCharSame(a[i], b[i]);
      }
    }
  }
}
