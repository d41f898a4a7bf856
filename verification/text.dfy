/**
 * The string operations the program applies to user input: ASCII lower-casing
 * (`str.lower`), title-casing (`str.title`) and slicing to a length (`s[:n]`).
 * Only ASCII letters are treated as cased characters.
 */
module Text {

  predicate IsUpper(c: char) { 'A' <= c <= 'Z' }

  predicate IsLower(c: char) { 'a' <= c <= 'z' }

  /** A cased character, in the sense `str.title` uses to find word starts. */
  predicate IsLetter(c: char) { IsUpper(c) || IsLower(c) }

  function LowerChar(c: char): (r: char)
    ensures IsLetter(r) <==> IsLetter(c)
    ensures !IsUpper(r)
    ensures IsLower(c) || !IsLetter(c) ==> r == c
  {
    if IsUpper(c) then (c as int + 32) as char else c
  }

  function UpperChar(c: char): (r: char)
    ensures IsLetter(r) <==> IsLetter(c)
    ensures !IsLower(r)
    ensures IsUpper(c) || !IsLetter(c) ==> r == c
  {
    if IsLower(c) then (c as int - 32) as char else c
  }

  /** `s.lower()`. */
  function Lower(s: string): (r: string)
    ensures |r| == |s|
    ensures forall i :: 0 <= i < |s| ==> r[i] == LowerChar(s[i])
  {
    if |s| == 0 then [] else [LowerChar(s[0])] + Lower(s[1..])
  }

  /**
   * `s.title()` on the rest of a string, given whether the character before it
   * was cased: a letter after a cased character is lowered, any other letter is raised.
   */
  function TitleAfter(s: string, afterLetter: bool): (r: string)
    ensures |r| == |s|
    ensures forall i :: 0 <= i < |s| ==>
      r[i] == if (if i == 0 then afterLetter else IsLetter(s[i - 1])) then LowerChar(s[i]) else UpperChar(s[i])
  {
    if |s| == 0 then []
    else
      var c := if afterLetter then LowerChar(s[0]) else UpperChar(s[0]);
      [c] + TitleAfter(s[1..], IsLetter(s[0]))
  }

  /** `s.title()`. */
  function Title(s: string): (r: string)
    ensures |r| == |s|
    ensures |s| > 0 ==> r[0] == UpperChar(s[0])
    ensures forall i :: 0 < i < |s| ==> r[i] == if IsLetter(s[i - 1]) then LowerChar(s[i]) else UpperChar(s[i])
  {
    TitleAfter(s, false)
  }

  /** Python's `s[:n]` for a non-negative `n`: the first `n` characters, or all of `s`. */
  function Truncate(s: string, n: nat): (r: string)
    ensures |r| == if n <= |s| then n else |s|
    ensures r <= s
    ensures |s| <= n ==> r == s
  {
    if n <= |s| then s[..n] else s
  }

  lemma LowerIdempotent(s: string)
    ensures Lower(Lower(s)) == Lower(s)
  {
  }

  /** Lower-casing a string without upper-case letters changes nothing. */
  lemma LowerOfLowerCase(s: string)
    requires forall i :: 0 <= i < |s| ==> !IsUpper(s[i])
    ensures Lower(s) == s
  {
  }

  /** Every character of a lowered string is already lower case. */
  lemma LowerHasNoUpper(s: string)
    ensures forall i :: 0 <= i < |Lower(s)| ==> !IsUpper(Lower(s)[i])
  {
  }

  /** Title-casing ignores the case the input was typed in. */
  lemma {:induction false} TitleAfterIgnoresCase(s: string, afterLetter: bool)
    ensures TitleAfter(Lower(s), afterLetter) == TitleAfter(s, afterLetter)
  {
    if |s| > 0 {
      assert Lower(s)[1..] == Lower(s[1..]);
      TitleAfterIgnoresCase(s[1..], IsLetter(s[0]));
    }
  }

  lemma TitleIgnoresCase(s: string)
    ensures Title(Lower(s)) == Title(s)
  {
    TitleAfterIgnoresCase(s, false);
  }

  /** Title-casing a title-cased string changes nothing. */
  lemma {:induction false} TitleAfterIdempotent(s: string, afterLetter: bool)
    ensures TitleAfter(TitleAfter(s, afterLetter), afterLetter) == TitleAfter(s, afterLetter)
  {
    if |s| > 0 {
      var t := TitleAfter(s, afterLetter);
      assert t[1..] == TitleAfter(s[1..], IsLetter(s[0]));
      assert IsLetter(t[0]) == IsLetter(s[0]);
      TitleAfterIdempotent(s[1..], IsLetter(s[0]));
    }
  }

  lemma TitleIdempotent(s: string)
    ensures Title(Title(s)) == Title(s)
  {
    TitleAfterIdempotent(s, false);
  }

  /** After a cased character, a word of lower-case letters is left as it is. */
  lemma {:induction false} TitleAfterLowerWord(s: string)
    requires forall i :: 0 <= i < |s| ==> IsLower(s[i])
    ensures TitleAfter(s, true) == s
  {
    if |s| > 0 {
      TitleAfterLowerWord(s[1..]);
    }
  }

  /** A word of lower-case letters title-cases to the same word with its first letter raised. */
  lemma TitleOfLowerWord(s: string)
    requires |s| > 0
    requires forall i :: 0 <= i < |s| ==> IsLower(s[i])
    ensures Title(s) == [UpperChar(s[0])] + s[1..]
    ensures IsUpper(Title(s)[0])
  {
    TitleAfterLowerWord(s[1..]);
  }
}
