/** ASCII case folding and substring search, the part of a SQL `ILIKE '%term%'`
    filter that the question search relies on. */
module Text {

  /** Lower-cases an ASCII capital letter; every other character is left alone. */
  function LowerChar(c: char): char {
    if 'A' <= c <= 'Z' then (c as int + 32) as char else c
  }

  /** Upper-cases an ASCII small letter; every other character is left alone. */
  function UpperChar(c: char): char {
    if 'a' <= c <= 'z' then (c as int - 32) as char else c
  }

  function Lower(s: string): string {
    seq(|s|, i requires 0 <= i < |s| => LowerChar(s[i]))
  }

  function Upper(s: string): string {
    seq(|s|, i requires 0 <= i < |s| => UpperChar(s[i]))
  }

  /** `needle` occurs in `hay` starting at position `i`. */
  ghost predicate OccursAt(hay: string, needle: string, i: int) {
    0 <= i && i + |needle| <= |hay| && hay[i..i + |needle|] == needle
  }

  /** Substring test, scanning `hay` from the left. */
  function Contains(hay: string, needle: string): bool
    decreases |hay|
  {
    if |needle| > |hay| then false
    else if hay[..|needle|] == needle then true
    else Contains(hay[1..], needle)
  }

  /** The scan finds `needle` exactly when it occurs somewhere in `hay`. */
  lemma {:induction false} ContainsIffOccurs(hay: string, needle: string)
    ensures Contains(hay, needle) <==> exists i :: OccursAt(hay, needle, i)
    decreases |hay|
  {
    if |needle| > |hay| {
    } else if hay[..|needle|] == needle {
      assert OccursAt(hay, needle, 0);
    } else {
      ContainsIffOccurs(hay[1..], needle);
      if Contains(hay[1..], needle) {
        var j :| OccursAt(hay[1..], needle, j);
        assert hay[1..][j..j + |needle|] == hay[j + 1..j + 1 + |needle|];
        assert OccursAt(hay, needle, j + 1);
      } else {
        forall i | OccursAt(hay, needle, i)
          ensures false
        {
          assert i != 0;
          assert hay[1..][i - 1..i - 1 + |needle|] == hay[i..i + |needle|];
          assert OccursAt(hay[1..], needle, i - 1);
        }
      }
    }
  }

  /** Case-insensitive substring test: both sides are lower-cased first. */
  predicate ContainsIgnoreCase(text: string, term: string) {
    Contains(Lower(text), Lower(term))
  }

  /** `term` matches `text` at position `i` when characters are compared
      after case folding. */
  ghost predicate MatchesAtIgnoringCase(text: string, term: string, i: int) {
    0 <= i && i + |term| <= |text|
    && forall k :: 0 <= k < |term| ==> LowerChar(text[i + k]) == LowerChar(term[k])
  }

  /** What the case-insensitive test means, position by position. */
  lemma ContainsIgnoreCaseMeaning(text: string, term: string)
    ensures ContainsIgnoreCase(text, term) <==> exists i :: MatchesAtIgnoringCase(text, term, i)
  {
    var lt, lm := Lower(text), Lower(term);
    ContainsIffOccurs(lt, lm);
    forall i | 0 <= i && i + |term| <= |text|
      ensures OccursAt(lt, lm, i) <==> MatchesAtIgnoringCase(text, term, i)
    {
      if MatchesAtIgnoringCase(text, term, i) {
        assert lt[i..i + |lm|] == lm;
      }
      if OccursAt(lt, lm, i) {
        forall k | 0 <= k < |term|
          ensures LowerChar(text[i + k]) == LowerChar(term[k])
        {
          assert lt[i..i + |lm|][k] == lt[i + k];
        }
      }
    }
    if ContainsIgnoreCase(text, term) {
      var i :| OccursAt(lt, lm, i);
      assert MatchesAtIgnoringCase(text, term, i);
    }
    if exists i :: MatchesAtIgnoringCase(text, term, i) {
      var i :| MatchesAtIgnoringCase(text, term, i);
      assert OccursAt(lt, lm, i);
    }
  }

  /** Folding an upper-cased or an already lower-cased string gives the same
      result as folding the original. */
  lemma LowerForgetsCase(s: string)
    ensures Lower(Upper(s)) == Lower(s)
    ensures Lower(Lower(s)) == Lower(s)
  {
  }

  /** Whether a term matches does not depend on the case in which the term,
      or the text, is written. */
  lemma MatchIgnoresCase(text: string, term: string)
    ensures ContainsIgnoreCase(text, Upper(term)) == ContainsIgnoreCase(text, term)
    ensures ContainsIgnoreCase(text, Lower(term)) == ContainsIgnoreCase(text, term)
    ensures ContainsIgnoreCase(Upper(text), term) == ContainsIgnoreCase(text, term)
  {
    LowerForgetsCase(term);
    LowerForgetsCase(text);
  }
}
