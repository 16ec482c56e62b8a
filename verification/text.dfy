/**
  The two string primitives the status normaliser and the row reader rely on:
  `strip()` (drop leading and trailing whitespace) and `lower()`.
  Both are modelled on the ASCII range; see README for what that leaves out.
 */
module Text {

  /** The characters below U+0080 that Python's `str.isspace` accepts. */
  predicate IsSpace(c: char) {
    c == ' ' || ('\t' <= c <= '\r') || ('\U{1C}' <= c <= '\U{1F}')
  }

  /** A string with no whitespace at either end. */
  predicate Stripped(s: string) {
    |s| == 0 || (!IsSpace(s[0]) && !IsSpace(s[|s| - 1]))
  }

  predicate AllSpace(s: string) {
    forall i :: 0 <= i < |s| ==> IsSpace(s[i])
  }

  /**
    Python's `str.strip()` with no argument: drops whitespace from both ends
    until neither end is whitespace.
   */
  function Strip(s: string): (r: string)
    ensures Stripped(r)
    ensures |r| <= |s|
  {
    if |s| > 0 && IsSpace(s[0]) then Strip(s[1..])
    else if |s| > 0 && IsSpace(s[|s| - 1]) then Strip(s[..|s| - 1])
    else s
  }

  /** What `strip()` cuts off is whitespace, and what it keeps is the infix `s[i..j]` of the input. */
  lemma {:induction false} StripIsInfix(s: string) returns (i: nat, j: nat)
    ensures i <= j <= |s| && Strip(s) == s[i..j]
    ensures AllSpace(s[..i]) && AllSpace(s[j..])
  {
    if |s| > 0 && IsSpace(s[0]) {
      var i', j' := StripIsInfix(s[1..]);
      i, j := i' + 1, j' + 1;
      assert s[..i] == [s[0]] + s[1..][..i'];
      assert s[j..] == s[1..][j'..];
    } else if |s| > 0 && IsSpace(s[|s| - 1]) {
      var t := s[..|s| - 1];
      i, j := StripIsInfix(t);
      assert s[..i] == t[..i];
      assert s[j..] == t[j..] + [s[|s| - 1]];
    } else {
      i, j := 0, |s|;
    }
  }

  /** `strip()` returns the empty string exactly when the input is all whitespace. */
  lemma {:induction false} StripEmpty(s: string)
    ensures |Strip(s)| == 0 <==> AllSpace(s)
  {
    if |s| > 0 && IsSpace(s[0]) {
      StripEmpty(s[1..]);
      assert AllSpace(s) <==> AllSpace(s[1..]) by {
        if AllSpace(s[1..]) {
          forall k | 0 <= k < |s| ensures IsSpace(s[k]) {
            if k > 0 {
              assert s[k] == s[1..][k - 1];
            }
          }
        }
      }
    } else if |s| > 0 && IsSpace(s[|s| - 1]) {
      var t := s[..|s| - 1];
      StripEmpty(t);
      assert t[0] == s[0];
    }
  }

  /** Stripping a string that has no surrounding whitespace changes nothing. */
  lemma StripStripped(s: string)
    requires Stripped(s)
    ensures Strip(s) == s
  {
  }

  /** Python's `str.lower()` on one character of the ASCII range. */
  function LowerChar(c: char): char {
    if 'A' <= c <= 'Z' then (c as int + ('a' as int - 'A' as int)) as char else c
  }

  /** Python's `str.lower()`, character by character. */
  function Lower(s: string): (r: string)
    ensures |r| == |s|
  {
    if |s| == 0 then [] else [LowerChar(s[0])] + Lower(s[1..])
  }

  /** Each character of `lower(s)` is the lower-case form of the character of `s` at that position. */
  lemma {:induction false} LowerAt(s: string, i: int)
    requires 0 <= i < |s|
    ensures Lower(s)[i] == LowerChar(s[i])
  {
    if i > 0 {
      LowerAt(s[1..], i - 1);
    }
  }

  /** A string that `lower()` leaves as it is. */
  predicate IsLower(s: string) {
    forall i :: 0 <= i < |s| ==> !('A' <= s[i] <= 'Z')
  }

  /** `lower()` produces a lower-case string, so a second `lower()` does nothing. */
  lemma LowerIsLower(s: string)
    ensures IsLower(Lower(s))
    ensures Lower(Lower(s)) == Lower(s)
  {
    forall i | 0 <= i < |s| ensures !('A' <= Lower(s)[i] <= 'Z') {
      LowerAt(s, i);
    }
    LowerOfLower(Lower(s));
  }

  /** A lower-case string is a fixed point of `lower()`. */
  lemma {:induction false} LowerOfLower(s: string)
    requires IsLower(s)
    ensures Lower(s) == s
  {
    if |s| > 0 {
      LowerOfLower(s[1..]);
    }
  }

  /** `lower()` maps whitespace to whitespace and nothing else to it, so it keeps a string stripped. */
  lemma LowerKeepsStripped(s: string)
    requires Stripped(s)
    ensures Stripped(Lower(s))
  {
    if |s| > 0 {
      LowerAt(s, 0);
      LowerAt(s, |s| - 1);
    }
  }
}
