/** Strings as the name filter of the book listing sees them: ASCII case
    folding (`toLowerCase`) and substring search (`includes`). */
module Text {

  /** Lower-case one character; only the ASCII letters A-Z are folded. */
  function LowerChar(c: char): char
  {
    if 'A' <= c <= 'Z' then (c as int - 'A' as int + 'a' as int) as char else c
  }

  /** `s.toLowerCase()`, restricted to ASCII. */
  function Lower(s: string): string
  {
    seq(|s|, i requires 0 <= i < |s| => LowerChar(s[i]))
  }

  /** Folding twice is folding once, so a query that is already lower-case
      is matched exactly as the upper-case spelling of the same query. */
  lemma LowerIdempotent(s: string)
    ensures Lower(Lower(s)) == Lower(s)
    ensures forall i :: 0 <= i < |s| ==> !('A' <= Lower(s)[i] <= 'Z')
  {
  }

  /** `needle` occurs in `hay` starting at position `i`. */
  ghost predicate OccursAt(hay: string, needle: string, i: int)
  {
    0 <= i && i + |needle| <= |hay| && hay[i..i + |needle|] == needle
  }

  /** `hay.includes(needle)`: try every start position from left to right. */
  function Contains(hay: string, needle: string): bool
    decreases |hay|
  {
    if needle <= hay then true
    else if hay == [] then false
    else Contains(hay[1..], needle)
  }

  /** An occurrence at position 0 is a prefix. */
  lemma OccursAtStart(hay: string, needle: string)
    ensures OccursAt(hay, needle, 0) <==> needle <= hay
  {
  }

  /** An occurrence past position 0 is an occurrence in the tail. */
  lemma OccursInTail(hay: string, needle: string, i: int)
    requires hay != [] && 1 <= i
    ensures OccursAt(hay, needle, i) <==> OccursAt(hay[1..], needle, i - 1)
  {
  }

  /** `Contains` finds an occurrence exactly when there is one; in particular
      the empty needle occurs in every string. */
  lemma {:induction false} ContainsIffOccurs(hay: string, needle: string)
    ensures Contains(hay, needle) <==> exists i :: OccursAt(hay, needle, i)
    decreases |hay|
  {
    OccursAtStart(hay, needle);
    if needle <= hay {
    } else if hay == [] {
      assert forall i :: !OccursAt(hay, needle, i);
    } else {
      ContainsIffOccurs(hay[1..], needle);
      if i :| OccursAt(hay[1..], needle, i) {
        OccursInTail(hay, needle, i + 1);
      }
      forall i | OccursAt(hay, needle, i) ensures OccursAt(hay[1..], needle, i - 1) {
        OccursInTail(hay, needle, i);
      }
    }
  }
}
