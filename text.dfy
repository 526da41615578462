/**
 * The string operations the keyword search relies on: Python's `str.lower()`
 * restricted to ASCII, and the substring test `needle in hay`.
 */
module Text {

  /** ASCII lower-casing of one character; every other character is kept. */
  function LowerChar(c: char): char
  {
    if 'A' <= c <= 'Z' then (c as int - 'A' as int + 'a' as int) as char else c
  }

  /** `s.lower()`, for the ASCII letters only. */
  function Lower(s: string): (r: string)
    ensures |r| == |s|
    ensures forall i :: 0 <= i < |s| ==> r[i] == LowerChar(s[i])
  {
    seq(|s|, i requires 0 <= i < |s| => LowerChar(s[i]))
  }

  /** `needle` is found in `hay` starting at position `i`. */
  ghost predicate OccursAt(needle: string, hay: string, i: int)
  {
    0 <= i && i + |needle| <= |hay| && hay[i..i + |needle|] == needle
  }

  /** Python's `needle in hay` on strings: true exactly when some position holds the needle. */
  function Contains(hay: string, needle: string): (r: bool)
    ensures r <==> exists i :: OccursAt(needle, hay, i)
    decreases |hay|
  {
    if |needle| > |hay| then
      false
    else if hay[..|needle|] == needle then
      assert OccursAt(needle, hay, 0);
      true
    else
      ShiftOccurrence(hay, needle);
      Contains(hay[1..], needle)
  }

  /** Dropping the first character of `hay` shifts every occurrence but the one at 0 by one. */
  lemma ShiftOccurrence(hay: string, needle: string)
    requires |needle| <= |hay| && hay[..|needle|] != needle
    ensures (exists i :: OccursAt(needle, hay, i)) <==> (exists i :: OccursAt(needle, hay[1..], i))
  {
    if i :| OccursAt(needle, hay, i) {
      assert i != 0;
      assert hay[1..][i - 1..i - 1 + |needle|] == hay[i..i + |needle|];
      assert OccursAt(needle, hay[1..], i - 1);
    }
    if i :| OccursAt(needle, hay[1..], i) {
      assert hay[1..][i..i + |needle|] == hay[i + 1..i + 1 + |needle|];
      assert OccursAt(needle, hay, i + 1);
    }
  }

  /** The keyword "dune" is found in the title "Dune"; "xyz" is not. */
  lemma DuneExample()
    ensures Contains(Lower("Dune"), Lower("dune"))
    ensures !Contains(Lower("Dune"), Lower("xyz"))
    ensures Contains(Lower("Frank Herbert"), Lower("HERBERT"))
  {
    assert Lower("Dune") == "dune";
    assert OccursAt("dune", "dune", 0);
    assert Lower("xyz") == "xyz";
    assert "dune"[..3][0] == 'd' && "dune"[1..] == "une";
    assert "une"[..3][0] == 'u' && "une"[1..] == "ne";
    assert !Contains("ne", "xyz");
    assert Lower("Frank Herbert") == "frank herbert";
    assert Lower("HERBERT") == "herbert";
    assert OccursAt("herbert", "frank herbert", 6);
  }
}
