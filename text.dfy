/**
 * The two ways the server counts the characters of a string. Dafny strings
 * are sequences of Unicode scalar values; JavaScript strings are sequences of
 * UTF-16 code units, where a character above U+FFFF takes two units.
 */
module Text {

  /** U+FE0E and U+FE0F, the text and emoji presentation selectors. */
  predicate IsVariationSelector(c: char)
  {
    c == '\U{FE0E}' || c == '\U{FE0F}'
  }

  /** A character outside the Basic Multilingual Plane: a surrogate pair in UTF-16. */
  predicate IsAstral(c: char)
  {
    c as int >= 0x1_0000
  }

  /**
   * The count of validator.js `isLength`: one per character, a surrogate pair
   * counting once, and presentation selectors not at all.
   */
  function ValidatorLength(s: string): (n: nat)
    ensures n <= |s|
    decreases |s|
  {
    if s == [] then 0
    else (if IsVariationSelector(s[0]) then 0 else 1) + ValidatorLength(s[1..])
  }

  /** JavaScript `.length`, which Mongoose's `minlength` and `maxlength` compare: UTF-16 code units. */
  function Utf16Length(s: string): (n: nat)
    ensures |s| <= n <= 2 * |s|
    decreases |s|
  {
    if s == [] then 0
    else (if IsAstral(s[0]) then 2 else 1) + Utf16Length(s[1..])
  }

  /** Text on which the two counts cannot disagree. */
  predicate PlainText(s: string)
  {
    forall k :: 0 <= k < |s| ==> !IsAstral(s[k]) && !IsVariationSelector(s[k])
  }

  /** On plain text both counts are the number of characters. */
  lemma {:induction false} PlainTextLengthsAgree(s: string)
    requires PlainText(s)
    ensures ValidatorLength(s) == |s| == Utf16Length(s)
    decreases |s|
  {
    if s != [] {
      PlainTextLengthsAgree(s[1..]);
    }
  }

  /** Characters above U+FFFF count once for the validator and twice for the schema. */
  lemma {:induction false} AstralTextLengths(s: string)
    requires forall k :: 0 <= k < |s| ==> IsAstral(s[k])
    ensures ValidatorLength(s) == |s|
    ensures Utf16Length(s) == 2 * |s|
    decreases |s|
  {
    if s != [] {
      AstralTextLengths(s[1..]);
    }
  }
}
