/** C strings: the characters before the terminating NUL. */
module CStrings {

  type CString = s: string | '\0' !in s

  /** What a pointer into a C string reads: the character, or NUL at the end. */
  function At(s: string, i: nat): char {
    if i < |s| then s[i] else '\0'
  }

  /** to_lower_c / to_lower_ascii */
  function LowerChar(c: char): char {
    if 'A' <= c <= 'Z' then c - 'A' + 'a' else c
  }

  function Lower(s: string): (r: string)
    ensures |r| == |s| && forall i :: 0 <= i < |s| ==> r[i] == LowerChar(s[i])
  {
    if s == "" then "" else [LowerChar(s[0])] + Lower(s[1..])
  }

  predicate IsLower(s: string) {
    forall i :: 0 <= i < |s| ==> LowerChar(s[i]) == s[i]
  }

  function Min(a: nat, b: nat): nat {
    if a < b then a else b
  }

  function SkipSpaces(s: string): (r: string)
    ensures '\0' !in s ==> '\0' !in r
  {
    if s == "" || s[0] != ' ' then s else SkipSpaces(s[1..])
  }
}
