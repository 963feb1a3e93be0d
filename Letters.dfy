/** ASCII stand-ins for the two string primitives the game relies on:
    Python's `str.lower()` and `str.isalpha()`. Only the 52 ASCII letters
    count as alphabetic, and only 'A'..'Z' change under lower-casing. */
module Letters {

  /** `c.isalpha()`, restricted to ASCII. */
  predicate IsLetter(c: char) {
    'a' <= c <= 'z' || 'A' <= c <= 'Z'
  }

  predicate IsLowerLetter(c: char) {
    'a' <= c <= 'z'
  }

  /** Lower-casing of one character: 'A'..'Z' move to 'a'..'z', every other character is kept. */
  function ToLower(c: char): (r: char)
    ensures IsLetter(r) <==> IsLetter(c)
    ensures IsLetter(c) ==> IsLowerLetter(r)
    ensures !('A' <= c <= 'Z') ==> r == c
    ensures 'A' <= c <= 'Z' ==> r as int - c as int == 'a' as int - 'A' as int
  {
    if 'A' <= c <= 'Z' then (c as int - 'A' as int + 'a' as int) as char else c
  }

  /** `s.lower()`: the same length, lower-cased position by position. */
  function Lower(s: string): (r: string)
    ensures |r| == |s|
    ensures forall i :: 0 <= i < |s| ==> r[i] == ToLower(s[i])
  {
    if |s| == 0 then "" else [ToLower(s[0])] + Lower(s[1..])
  }

  predicate IsLowerWord(s: string) {
    forall i :: 0 <= i < |s| ==> IsLowerLetter(s[i])
  }
}
