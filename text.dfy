/**
  ASCII models of the two Go string helpers the redirect test relies on:
  `strings.ToLower` and `strings.TrimSpace`. Only the ASCII letters are
  folded and only the ASCII white-space characters are trimmed.

  The functions keep quantifier-free contracts; the element-wise facts are
  lemmas, called where a proof needs them.
 */
module AsciiText {

  /** The ASCII white space that `strings.TrimSpace` removes: tab, line feed,
      vertical tab, form feed, carriage return and space. */
  predicate IsSpace(c: char) {
    c == ' ' || c == '\t' || c == '\n' || c == '\U{B}' || c == '\U{C}' || c == '\r'
  }

  predicate IsUpper(c: char) {
    'A' <= c <= 'Z'
  }

  function LowerChar(c: char): (r: char)
    ensures !IsUpper(r)
    ensures !IsUpper(c) ==> r == c
  {
    if IsUpper(c) then (c as int + 32) as char else c
  }

  /** Lower-cases every ASCII letter and keeps every other character. */
  function ToLower(s: string): (r: string)
    ensures |r| == |s|
  {
    if s == [] then [] else [LowerChar(s[0])] + ToLower(s[1..])
  }

  /** Lower-casing works character by character. */
  lemma {:induction false} ToLowerAt(s: string, i: nat)
    requires i < |s|
    ensures ToLower(s)[i] == LowerChar(s[i])
    decreases i
  {
    if i > 0 {
      ToLowerAt(s[1..], i - 1);
    }
  }

  /** ToLower distributes over concatenation. */
  lemma {:induction false} ToLowerAppend(a: string, b: string)
    ensures ToLower(a + b) == ToLower(a) + ToLower(b)
    decreases |a|
  {
    if a != [] {
      assert (a + b)[1..] == a[1..] + b;
      ToLowerAppend(a[1..], b);
    } else {
      assert a + b == b;
    }
  }

  /** A string without upper-case letters is its own lower-case form. */
  lemma {:induction false} NoUpperIsLower(s: string)
    requires forall k :: 0 <= k < |s| ==> !IsUpper(s[k])
    ensures ToLower(s) == s
    decreases |s|
  {
    if s != [] {
      NoUpperIsLower(s[1..]);
    }
  }

  /** The number of white-space characters at the start of `s`. */
  function LeadingSpaces(s: string): (n: nat)
    ensures n <= |s|
    ensures n < |s| ==> !IsSpace(s[n])
  {
    if s != [] && IsSpace(s[0]) then 1 + LeadingSpaces(s[1..]) else 0
  }

  /** The number of white-space characters at the end of `s`. */
  function TrailingSpaces(s: string): (n: nat)
    ensures n <= |s|
    ensures n < |s| ==> !IsSpace(s[|s| - 1 - n])
  {
    if s != [] && IsSpace(s[|s| - 1]) then 1 + TrailingSpaces(s[..|s| - 1]) else 0
  }

  /** Removes the leading white space. */
  function TrimLeft(s: string): (r: string)
    ensures r == [] || !IsSpace(r[0])
  {
    s[LeadingSpaces(s)..]
  }

  /** Removes the trailing white space. */
  function TrimRight(s: string): (r: string)
    ensures r == [] || !IsSpace(r[|r| - 1])
  {
    s[..|s| - TrailingSpaces(s)]
  }

  /** `strings.TrimSpace` on ASCII white space: the result is empty or starts
      and ends with a non-space character. */
  function TrimSpace(s: string): (r: string)
    ensures |r| <= |s|
    ensures r == [] || (!IsSpace(r[0]) && !IsSpace(r[|r| - 1]))
  {
    TrimRight(TrimLeft(s))
  }

  /** TrimLeft removes nothing but white space. */
  lemma {:induction false} TrimLeftCutsSpace(s: string, k: nat)
    requires k < LeadingSpaces(s)
    ensures IsSpace(s[k])
    decreases |s|
  {
    if k > 0 {
      TrimLeftCutsSpace(s[1..], k - 1);
    }
  }

  /** TrimRight removes nothing but white space. */
  lemma {:induction false} TrimRightCutsSpace(s: string, k: nat)
    requires |s| - TrailingSpaces(s) <= k < |s|
    ensures IsSpace(s[k])
    decreases |s|
  {
    if k < |s| - 1 {
      TrimRightCutsSpace(s[..|s| - 1], k);
    }
  }

  /** A non-space character keeps TrimSpace from returning the empty string:
      the result is empty exactly when `s` is all white space. */
  lemma TrimSpaceKeepsNonSpace(s: string, k: nat)
    requires k < |s| && !IsSpace(s[k])
    ensures TrimSpace(s) != []
  {
    var n := LeadingSpaces(s);
    if k < n {
      TrimLeftCutsSpace(s, k);
    } else {
      var l := s[n..];
      assert l[k - n] == s[k];
      if k - n >= |l| - TrailingSpaces(l) {
        TrimRightCutsSpace(l, k - n);
      }
    }
  }

  /** Leading white space followed by a non-space start is all that TrimLeft removes. */
  lemma {:induction false} TrimLeftAfterSpaces(ws: string, x: string)
    requires forall k :: 0 <= k < |ws| ==> IsSpace(ws[k])
    requires x == [] || !IsSpace(x[0])
    ensures LeadingSpaces(ws + x) == |ws|
    ensures TrimLeft(ws + x) == x
    decreases |ws|
  {
    if ws != [] {
      assert (ws + x)[1..] == ws[1..] + x;
      TrimLeftAfterSpaces(ws[1..], x);
    } else {
      assert ws + x == x;
    }
  }

  /** Trailing white space after a non-space end is all that TrimRight removes. */
  lemma {:induction false} TrimRightBeforeSpaces(x: string, ws: string)
    requires forall k :: 0 <= k < |ws| ==> IsSpace(ws[k])
    requires x == [] || !IsSpace(x[|x| - 1])
    ensures TrailingSpaces(x + ws) == |ws|
    ensures TrimRight(x + ws) == x
    decreases |ws|
  {
    if ws != [] {
      assert (x + ws)[..|x + ws| - 1] == x + ws[..|ws| - 1];
      TrimRightBeforeSpaces(x, ws[..|ws| - 1]);
    } else {
      assert x + ws == x;
    }
  }

  /** A string padded with white space on both sides trims to its core. */
  lemma TrimSpacePadded(ws: string, x: string, ws2: string)
    requires forall k :: 0 <= k < |ws| ==> IsSpace(ws[k])
    requires forall k :: 0 <= k < |ws2| ==> IsSpace(ws2[k])
    requires x == [] || (!IsSpace(x[0]) && !IsSpace(x[|x| - 1]))
    ensures TrimSpace(ws + x + ws2) == x
  {
    if x == [] {
      assert ws + x + ws2 == ws + ws2;
      forall k | 0 <= k < |ws + ws2| ensures IsSpace((ws + ws2)[k]) {
        if k >= |ws| { assert (ws + ws2)[k] == ws2[k - |ws|]; }
      }
      TrimLeftAfterSpaces(ws + ws2, []);
      assert ws + ws2 + [] == ws + ws2;
    } else {
      assert ws + x + ws2 == ws + (x + ws2);
      TrimLeftAfterSpaces(ws, x + ws2);
      TrimRightBeforeSpaces(x, ws2);
    }
  }
}
