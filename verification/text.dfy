/**
 The string primitives the user list needs: `String.prototype.includes` and
 the locale-dependent `toLocaleLowerCase` / `localeCompare`, which are taken
 as parameters because their behaviour depends on the runtime's locale data.
 */
module Text {
  import Ordering

  /** `needle` occurs in `hay` starting at index `i`. */
  ghost predicate OccursAt(hay: string, needle: string, i: int) {
    0 <= i && i + |needle| <= |hay| && hay[i..i + |needle|] == needle
  }

  /** `hay.includes(needle)`: a left-to-right search for a contiguous occurrence. */
  function Includes(hay: string, needle: string): (r: bool)
    ensures r ==> |needle| <= |hay|
    ensures |needle| == 0 ==> r
    decreases |hay|
  {
    if |needle| > |hay| then false
    else if hay[..|needle|] == needle then true
    else Includes(hay[1..], needle)
  }

  /** The search finds exactly the strings that occur somewhere in `hay`. */
  lemma {:induction false} IncludesIffOccurs(hay: string, needle: string)
    ensures Includes(hay, needle) <==> exists i :: OccursAt(hay, needle, i)
    decreases |hay|
  {
    if |needle| > |hay| {
    } else if hay[..|needle|] == needle {
      assert OccursAt(hay, needle, 0);
    } else {
      IncludesIffOccurs(hay[1..], needle);
      if Includes(hay, needle) {
        var i :| OccursAt(hay[1..], needle, i);
        assert hay[1..][i..i + |needle|] == hay[i + 1..i + 1 + |needle|];
        assert OccursAt(hay, needle, i + 1);
      }
      if exists i :: OccursAt(hay, needle, i) {
        var i :| OccursAt(hay, needle, i);
        assert i != 0;
        assert hay[1..][i - 1..i - 1 + |needle|] == hay[i..i + |needle|];
        assert OccursAt(hay[1..], needle, i - 1);
      }
    }
  }

  /** The empty string occurs in every string. */
  lemma IncludesEmpty(hay: string)
    ensures Includes(hay, "")
  {
  }

  /**
   The locale the page runs in. `lower` stands for `toLocaleLowerCase`, and
   `compare` for `localeCompare`, whose sign orders two strings.
   */
  datatype Locale = Locale(lower: string -> string, compare: Ordering.Comparator<string>)

  /** What the model assumes of `localeCompare`: it orders strings as a total preorder. */
  ghost predicate ConsistentCollation(loc: Locale) {
    Ordering.TotalPreorder(loc.compare)
  }
}
