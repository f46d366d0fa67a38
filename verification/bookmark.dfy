/** The bookmark record and the string measure its description limit is
    stated in. */
module Bookmarks {

  /** A stored bookmark: the five fields the create handler puts into the
      new record, in the same order. */
  datatype Bookmark = Bookmark(
    id: string,
    bookTitle: string,
    link: string,
    desc: string,
    rating: int)

  /** The first code point that needs a surrogate pair in UTF-16. */
  const FirstAstral := 0x1_0000

  /** UTF-16 code units taken by one character. */
  function CodeUnits(c: char): (n: nat)
    ensures 1 <= n <= 2
  {
    if c as int < FirstAstral then 1 else 2
  }

  /** The length a JavaScript string reports: its count of UTF-16 code
      units, so a character outside the Basic Multilingual Plane counts
      twice. */
  function Utf16Length(s: string): (n: nat)
    ensures |s| <= n <= 2 * |s|
    ensures |s| == 0 <==> n == 0
  {
    if |s| == 0 then 0 else CodeUnits(s[0]) + Utf16Length(s[1..])
  }

  /** Every character of `s` lies in the Basic Multilingual Plane. */
  predicate InBmp(s: string) {
    forall i :: 0 <= i < |s| ==> s[i] as int < FirstAstral
  }

  /** The JavaScript length of a string equals its character count exactly
      when no character needs a surrogate pair. */
  lemma {:induction false} Utf16LengthIsCharCount(s: string)
    ensures Utf16Length(s) == |s| <==> InBmp(s)
  {
    if |s| > 0 {
      Utf16LengthIsCharCount(s[1..]);
      assert InBmp(s) <==> s[0] as int < FirstAstral && InBmp(s[1..]) by {
        if s[0] as int < FirstAstral && InBmp(s[1..]) {
          forall i | 0 <= i < |s|
            ensures s[i] as int < FirstAstral
          {
            if i > 0 {
              assert s[i] == s[1..][i - 1];
            }
          }
        }
      }
    }
  }
}
