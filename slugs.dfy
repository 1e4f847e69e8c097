/**
 The URL slug sent as `titleSlug` when a title is handed to the movie or the
 series manager: the title lower-cased, with every space replaced by a
 hyphen. Lower-casing is modelled on ASCII letters only.
 */
module Slugs {

  predicate IsAsciiUpper(c: char) {
    'A' <= c <= 'Z'
  }

  /** ASCII lower-casing of one character. */
  function LowerChar(c: char): (d: char)
    ensures !IsAsciiUpper(d)
    ensures IsAsciiUpper(c) ==> d as int == c as int + ('a' as int - 'A' as int)
    ensures !IsAsciiUpper(c) ==> d == c
  {
    if IsAsciiUpper(c) then (c as int + ('a' as int - 'A' as int)) as char else c
  }

  /** The string with every ASCII upper-case letter lower-cased. */
  function Lower(s: string): (r: string)
    ensures |r| == |s|
    ensures forall i :: 0 <= i < |s| ==> r[i] == LowerChar(s[i])
  {
    if s == [] then [] else [LowerChar(s[0])] + Lower(s[1..])
  }

  /** The string with every space replaced by a hyphen. */
  function ReplaceSpaces(s: string): (r: string)
    ensures |r| == |s|
    ensures forall i :: 0 <= i < |s| ==> r[i] == if s[i] == ' ' then '-' else s[i]
  {
    if s == [] then [] else [if s[0] == ' ' then '-' else s[0]] + ReplaceSpaces(s[1..])
  }

  /** The slug of a title: lower-case first, then replace spaces. It has the
      title's length, no space and no upper-case letter, and position by
      position it is the title's character with a space turned into a hyphen
      and a capital letter into its small letter. */
  function TitleSlug(title: string): (slug: string)
    ensures |slug| == |title|
    ensures ' ' !in slug
    ensures forall i :: 0 <= i < |slug| ==> !IsAsciiUpper(slug[i])
    ensures forall i :: 0 <= i < |title| ==>
              slug[i] == if title[i] == ' ' then '-' else LowerChar(title[i])
  {
    ReplaceSpaces(Lower(title))
  }

  /** A title is its own slug exactly when it has no space and no ASCII
      capital letter. */
  lemma SlugFixedPoint(title: string)
    ensures TitleSlug(title) == title <==>
            ' ' !in title && forall i :: 0 <= i < |title| ==> !IsAsciiUpper(title[i])
  {
    if ' ' !in title && forall i :: 0 <= i < |title| ==> !IsAsciiUpper(title[i]) {
      var slug := TitleSlug(title);
      forall i | 0 <= i < |title|
        ensures slug[i] == title[i]
      {
      }
    }
  }

  /** Slugging a slug changes nothing. */
  lemma SlugIdempotent(title: string)
    ensures TitleSlug(TitleSlug(title)) == TitleSlug(title)
  {
    SlugFixedPoint(TitleSlug(title));
  }

  /** The slug of the title "Movie A". */
  lemma TitleSlugExample()
    ensures TitleSlug("Movie A") == "movie-a"
  {
    var slug := TitleSlug("Movie A");
    assert slug[0] == 'm' && slug[5] == '-' && slug[6] == 'a';
  }
}
