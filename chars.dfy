/** Character classes and case mapping, restricted to ASCII.
    Python's `str.isspace`, `str.lower`, `str.title`, `\s`, `\d` and `\w` are
    modelled on the ASCII range; every other character is an ordinary
    non-space, non-letter, non-digit character that case mapping leaves alone. */
module Chars {

  /** `str.isspace` on ASCII: \t \n \v \f \r, the separators \x1c-\x1f and ' '. */
  predicate IsSpace(c: char) {
    var n := c as int;
    n == 32 || 9 <= n <= 13 || 28 <= n <= 31
  }

  predicate NotSpace(c: char) {
    !IsSpace(c)
  }

  /** The characters at which `str.splitlines` breaks (\r\n counts as one break). */
  predicate IsLineBreak(c: char) {
    var n := c as int;
    10 <= n <= 13 || 28 <= n <= 30
  }

  predicate IsUpper(c: char) {
    'A' <= c <= 'Z'
  }

  predicate IsLower(c: char) {
    'a' <= c <= 'z'
  }

  /** `[a-zA-Z]`; on ASCII also exactly the cased characters. */
  predicate IsLetter(c: char) {
    IsUpper(c) || IsLower(c)
  }

  predicate IsDigit(c: char) {
    '0' <= c <= '9'
  }

  /** `\w` on ASCII: `[A-Za-z0-9_]`. */
  predicate IsWordChar(c: char) {
    IsLetter(c) || IsDigit(c) || c == '_'
  }

  function LowerChar(c: char): (r: char)
    ensures !IsUpper(r)
    ensures IsLetter(r) <==> IsLetter(c)
    ensures IsSpace(r) <==> IsSpace(c)
    ensures IsDigit(r) <==> IsDigit(c)
    ensures !IsUpper(c) ==> r == c
  {
    if IsUpper(c) then (c as int + 32) as char else c
  }

  function UpperChar(c: char): (r: char)
    ensures !IsLower(r)
    ensures IsLetter(r) <==> IsLetter(c)
    ensures IsSpace(r) <==> IsSpace(c)
    ensures IsDigit(r) <==> IsDigit(c)
    ensures LowerChar(r) == LowerChar(c)
    ensures !IsLower(c) ==> r == c
  {
    if IsLower(c) then (c as int - 32) as char else c
  }

  /** `str.lower`. */
  function Lower(s: string): (r: string)
    ensures |r| == |s|
    ensures forall i :: 0 <= i < |s| ==> r[i] == LowerChar(s[i])
  {
    seq(|s|, i requires 0 <= i < |s| => LowerChar(s[i]))
  }

  /** `str.title`: a character is lower-cased when the character before it in
      the ORIGINAL string is cased (a letter), and upper-cased otherwise. */
  function Title(s: string): (r: string)
    ensures |r| == |s|
    ensures forall i :: 0 <= i < |s| ==>
      r[i] == if i > 0 && IsLetter(s[i - 1]) then LowerChar(s[i]) else UpperChar(s[i])
  {
    seq(|s|, i requires 0 <= i < |s| =>
      if i > 0 && IsLetter(s[i - 1]) then LowerChar(s[i]) else UpperChar(s[i]))
  }

  predicate AllLower(s: string) {
    forall i :: 0 <= i < |s| ==> !IsUpper(s[i])
  }

  /** Title-casing changes letters only, never which characters are letters,
      digits or spaces, and it does not change the lower-case form. */
  lemma TitlePreservesClasses(s: string)
    ensures Lower(Title(s)) == Lower(s)
    ensures forall i :: 0 <= i < |s| ==>
      && (IsSpace(Title(s)[i]) <==> IsSpace(s[i]))
      && (IsDigit(Title(s)[i]) <==> IsDigit(s[i]))
      && (IsLetter(Title(s)[i]) <==> IsLetter(s[i]))
  {
  }

  lemma LowerIdentity(s: string)
    requires AllLower(s)
    ensures Lower(s) == s
  {
  }
}
