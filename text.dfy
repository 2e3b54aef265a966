/**
 * The string operations the search filter uses: `toLowerCase` (restricted to ASCII)
 * and `String.prototype.includes`.
 */
module Text {

  /** ASCII lower-casing of one character; every other character is left alone. */
  function LowerChar(c: char): char
  {
    if 'A' <= c <= 'Z' then (c as int + 32) as char else c
  }

  /** `s.toLowerCase()`, ASCII only: every character is folded on its own. */
  function Lower(s: string): string
  {
    seq(|s|, i requires 0 <= i < |s| => LowerChar(s[i]))
  }

  predicate IsLowerCase(s: string)
  {
    forall i :: 0 <= i < |s| ==> !('A' <= s[i] <= 'Z')
  }

  /** The result of lower-casing has no upper-case letter left in it. */
  lemma LowerIsLowerCase(s: string)
    ensures IsLowerCase(Lower(s))
  {
  }

  /** Lower-casing keeps the length. */
  lemma LowerLength(s: string)
    ensures |Lower(s)| == |s|
  {
  }

  /** Lower-casing twice is lower-casing once. */
  lemma LowerIdempotent(s: string)
    ensures Lower(Lower(s)) == Lower(s)
  {
    assert forall i :: 0 <= i < |s| ==> Lower(Lower(s))[i] == Lower(s)[i];
  }

  /** Lower-casing commutes with taking a slice. */
  lemma LowerSlice(s: string, i: nat, j: nat)
    requires i <= j <= |s|
    ensures Lower(s[i..j]) == Lower(s)[i..j]
  {
    assert forall k :: 0 <= k < j - i ==> Lower(s[i..j])[k] == Lower(s)[i..j][k];
  }

  predicate StartsWith(s: string, prefix: string)
  {
    |prefix| <= |s| && s[..|prefix|] == prefix
  }

  /**
   * `hay.includes(needle)`: needle starts at the first position of hay, or somewhere
   * further on. The empty needle is included in every string, the empty one too.
   */
  predicate Includes(hay: string, needle: string)
    decreases |hay|
  {
    StartsWith(hay, needle) || (hay != [] && Includes(hay[1..], needle))
  }

  /** Reference definition of a substring: needle occupies positions i .. i+|needle| of hay. */
  ghost predicate OccursAt(hay: string, needle: string, i: int)
  {
    0 <= i && i + |needle| <= |hay| && hay[i..i + |needle|] == needle
  }

  /** `Includes` is exactly "occurs at some position". */
  lemma {:induction false} IncludesIffOccurs(hay: string, needle: string)
    ensures Includes(hay, needle) <==> exists i :: OccursAt(hay, needle, i)
    decreases |hay|
  {
    if StartsWith(hay, needle) {
      assert OccursAt(hay, needle, 0);
    } else if hay == [] {
      assert forall i :: !OccursAt(hay, needle, i);
    } else {
      IncludesIffOccurs(hay[1..], needle);
      forall i | OccursAt(hay[1..], needle, i)
        ensures OccursAt(hay, needle, i + 1)
      {
        assert hay[1..][i..i + |needle|] == hay[i + 1..i + 1 + |needle|];
      }
      forall i | OccursAt(hay, needle, i)
        ensures OccursAt(hay[1..], needle, i - 1)
      {
        assert i != 0;
        assert hay[1..][i - 1..i - 1 + |needle|] == hay[i..i + |needle|];
      }
    }
  }

  /** The empty needle is included in every string. */
  lemma IncludesEmpty(hay: string)
    ensures Includes(hay, "")
  {
    assert StartsWith(hay, "");
  }

  /** `hay.toLowerCase().includes(query.toLowerCase())` */
  predicate ContainsIgnoreCase(hay: string, query: string)
  {
    Includes(Lower(hay), Lower(query))
  }

  /** A literal occurrence is also a case-insensitive one. */
  lemma IncludesImpliesContainsIgnoreCase(hay: string, query: string)
    requires Includes(hay, query)
    ensures ContainsIgnoreCase(hay, query)
  {
    IncludesIffOccurs(hay, query);
    var i :| OccursAt(hay, query, i);
    LowerSlice(hay, i, i + |query|);
    assert OccursAt(Lower(hay), Lower(query), i);
    IncludesIffOccurs(Lower(hay), Lower(query));
  }

  /** Changing the case of the query does not change the answer. */
  lemma ContainsIgnoreCaseOfLowerQuery(hay: string, query: string)
    ensures ContainsIgnoreCase(hay, Lower(query)) == ContainsIgnoreCase(hay, query)
  {
    LowerIdempotent(query);
  }
}
