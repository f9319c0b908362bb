/** Substring containment, the test `String.prototype.includes` performs. */
module Substring {

  /** `needle` sits in `hay` starting at position `i`. */
  predicate OccursAt(hay: string, needle: string, i: int) {
    0 <= i && i + |needle| <= |hay| && hay[i..i + |needle|] == needle
  }

  /** `needle` sits somewhere in `hay`. */
  ghost predicate IsSubstring(needle: string, hay: string) {
    exists i :: OccursAt(hay, needle, i)
  }

  /** Checks each start position of `hay` from the left. */
  function Includes(hay: string, needle: string): (b: bool)
    ensures b <==> IsSubstring(needle, hay)
    decreases |hay|
  {
    if |needle| > |hay| then false
    else if hay[..|needle|] == needle then
      assert OccursAt(hay, needle, 0);
      true
    else
      OccursLater(hay, needle);
      Includes(hay[1..], needle)
  }

  /** When `needle` does not start `hay`, it occurs in `hay` iff it occurs in
      `hay` without its first character. */
  lemma OccursLater(hay: string, needle: string)
    requires |needle| <= |hay|
    requires hay[..|needle|] != needle
    ensures IsSubstring(needle, hay) <==> IsSubstring(needle, hay[1..])
  {
    if IsSubstring(needle, hay) {
      var j :| OccursAt(hay, needle, j);
      assert j != 0;
      assert hay[1..][j - 1..j - 1 + |needle|] == hay[j..j + |needle|];
      assert OccursAt(hay[1..], needle, j - 1);
    }
    if IsSubstring(needle, hay[1..]) {
      var i :| OccursAt(hay[1..], needle, i);
      assert hay[1..][i..i + |needle|] == hay[i + 1..i + 1 + |needle|];
      assert OccursAt(hay, needle, i + 1);
    }
  }

  /** The empty string is part of every string. */
  lemma EmptyIncluded(hay: string)
    ensures Includes(hay, "")
  {
    assert OccursAt(hay, "", 0);
  }
}
