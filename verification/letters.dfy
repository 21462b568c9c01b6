/** Characters as the engine treats them: upper-casing of the letters it
    writes, and the filler letters drawn for cells left empty. */
module Letters {

  /** `String.prototype.toUpperCase` on a one-character string, restricted to
      the ASCII letters: `a`..`z` map to `A`..`Z`, every other character is
      kept as it is. */
  function Upper(c: char): (r: char)
    ensures !('a' <= r <= 'z')
    ensures !('a' <= c <= 'z') ==> r == c
    ensures 'a' <= c <= 'z' ==> 'A' <= r <= 'Z' && r as int - 'A' as int == c as int - 'a' as int
  {
    if 'a' <= c <= 'z' then (c as int - 32) as char else c
  }

  /** A character that upper-casing leaves alone; every letter the engine
      stores in the grid is one. */
  predicate IsStable(c: char) {
    Upper(c) == c
  }

  /** Upper-casing twice is upper-casing once. */
  lemma UpperIdempotent(c: char)
    ensures IsStable(Upper(c))
  {
  }

  /** Result of `Math.floor(Math.random() * 26)`: one of 26 equally likely
      letter positions. */
  type LetterDraw = k: int | 0 <= k < 26

  /** The filler letter of the fill pass, `String.fromCharCode(65 + k)`:
      all 26 letters `A`..`Z` are reachable, `Z` included. */
  function FillLetter(k: LetterDraw): (r: char)
    ensures 'A' <= r <= 'Z'
    ensures r as int - 'A' as int == k
    ensures IsStable(r)
  {
    (65 + k) as char
  }

}
