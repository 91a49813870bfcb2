/**
 * The slugs stored with a user: the lower-cased full name with every space
 * replaced by '-', followed at registration by '-' and a three-digit number.
 * The lower-casing is the JVM's, a parameter constrained by LowerCaseLaws.
 */
module Slug {
  import opened JavaText

  /** fullName.toLowerCase().replace(" ", "-"), as the admin endpoints store it. */
  function BaseSlug(lower: CaseMapping, fullName: string): (slug: string)
    ensures |slug| == |lower(fullName)|
    ensures ' ' !in slug
  {
    Replace(lower(fullName), ' ', '-')
  }

  /** The registration slug: the base slug, '-', and the random number in [0, 1000) as %03d. */
  function RegistrationSlug(lower: CaseMapping, fullName: string, randomNumber: int): string
    requires 0 <= randomNumber < 1000
  {
    BaseSlug(lower, fullName) + "-" + FormatThreeDigits(randomNumber)
  }

  /** What an ASCII character of a name becomes in its slug. */
  function SlugChar(c: char): char
  {
    if c == ' ' then '-' else LowerChar(c)
  }

  /** A slug holds no space and no upper-case ASCII letter, whatever the name. */
  lemma BaseSlugIsLowerCase(lower: CaseMapping, fullName: string)
    requires LowerCaseLaws(lower)
    ensures ' ' !in BaseSlug(lower, fullName)
    ensures HasNoAsciiUpper(BaseSlug(lower, fullName))
  {
    var lowered := lower(fullName);
    assert HasNoAsciiUpper(lowered);
    var slug := BaseSlug(lower, fullName);
    forall c | c in slug ensures !('A' <= c <= 'Z') {
      var i :| 0 <= i < |slug| && slug[i] == c;
      assert c == '-' || c == lowered[i];
      assert lowered[i] in lowered;
    }
  }

  /** The slug of an ASCII name: character by character, space to '-' and upper case to lower case. */
  lemma AsciiBaseSlug(lower: CaseMapping, fullName: string)
    requires LowerCaseLaws(lower) && IsAscii(fullName)
    ensures |BaseSlug(lower, fullName)| == |fullName|
    ensures forall i :: 0 <= i < |fullName| ==> BaseSlug(lower, fullName)[i] == SlugChar(fullName[i])
  {
  }

  /**
   * A registration slug splits back into its parts: the base slug of the name,
   * a '-', and three digits whose value is the random number.
   */
  lemma RegistrationSlugParts(lower: CaseMapping, fullName: string, randomNumber: int)
    requires 0 <= randomNumber < 1000
    ensures var base := BaseSlug(lower, fullName);
      var slug := RegistrationSlug(lower, fullName, randomNumber);
      && |slug| == |base| + 4
      && slug[..|base|] == base
      && slug[|base|] == '-'
      && (forall c :: c in slug[|base| + 1..] ==> IsDigit(c))
      && DigitsValue(slug[|base| + 1..]) == randomNumber
  {
    var base := BaseSlug(lower, fullName);
    var slug := RegistrationSlug(lower, fullName, randomNumber);
    assert slug[|base| + 1..] == FormatThreeDigits(randomNumber);
    FormatThreeDigitsValue(randomNumber);
  }

  /**
   * Two ASCII names get the same slug exactly when they agree up to ASCII case
   * and space versus '-': the admin endpoints' slugs are not unique.
   */
  lemma AsciiSlugCollisions(lower: CaseMapping, a: string, b: string)
    requires LowerCaseLaws(lower) && IsAscii(a) && IsAscii(b)
    ensures BaseSlug(lower, a) == BaseSlug(lower, b) <==>
      |a| == |b| && forall i :: 0 <= i < |a| ==> SlugChar(a[i]) == SlugChar(b[i])
  {
  }
}
