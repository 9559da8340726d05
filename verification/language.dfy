/**
 * Language tags and writing direction, after src/language.ts: the language
 * part of a tag, lower-cased, decides whether text runs right to left.
 */
module Language {
  import opened Strings

  /** The language codes written right to left. */
  const Rtl: set<string> :=
    {"ar", "ur", "arc", "az", "dv", "ff", "he", "ku", "fa", "nqo", "syc", "rhg"}

  /** getLanguageCode: the part of the tag before the first `-`, lower-cased. */
  function LanguageCode(tag: string): (r: string)
    ensures '-' !in r
    ensures |r| <= |tag|
    ensures r == Lower(Before(tag, '-'))
  {
    if '-' in tag then Lower(Split(tag, '-')[0]) else Lower(tag)
  }

  lemma LanguageCodeIdempotent(tag: string)
    ensures LanguageCode(LanguageCode(tag)) == LanguageCode(tag)
  {
    LowerIdempotent(Before(tag, '-'));
  }

  /** The region (and anything after it) does not matter. */
  lemma LanguageCodeIgnoresRegion(language: string, region: string)
    requires '-' !in language
    ensures LanguageCode(language + "-" + region) == LanguageCode(language)
  {
    BeforeAfterOfJoin(language, '-', region);
  }

  lemma LanguageCodeIgnoresCase(tag: string)
    ensures LanguageCode(Lower(tag)) == LanguageCode(tag)
  {
    LowerBefore(tag);
    LowerIdempotent(Before(tag, '-'));
  }

  /** isRTL */
  predicate IsRtl(tag: string) {
    LanguageCode(tag) in Rtl
  }

  /** isRTL ignores case and region, and holds for exactly the listed codes. */
  lemma IsRtlOfTag(tag: string, language: string, region: string)
    requires '-' !in language && tag == language + "-" + region
    ensures IsRtl(Lower(tag)) == IsRtl(tag)
    ensures IsRtl(tag) == IsRtl(language)
    ensures IsRtl(tag) <==> Lower(language) in Rtl
  {
    LanguageCodeIgnoresCase(tag);
    LanguageCodeIgnoresRegion(language, region);
  }

  /** An Arabic tag reads right to left whatever its case and region. */
  lemma ArabicIsRtl()
    ensures IsRtl("AR-eg")
  {
    assert "AR-eg" == "AR" + "-" + "eg";
    LanguageCodeIgnoresRegion("AR", "eg");
    var ar := LanguageCode("AR");
    assert ar[0] == 'a' && ar[1] == 'r';
    assert ar == "ar";
  }


  /** US English reads left to right. */
  lemma EnglishIsLtr()
    ensures !IsRtl("en-US")
  {
    assert "en-US" == "en" + "-" + "US";
    LanguageCodeIgnoresRegion("en", "US");
    var en := LanguageCode("en");
    assert en[0] == 'e' && en[1] == 'n';
    assert en == "en";
  }


  /** getDirection */
  function Direction(tag: string): (d: string)
    ensures d == "rtl" <==> IsRtl(tag)
    ensures d == "ltr" <==> !IsRtl(tag)
  {
    if IsRtl(tag) then "rtl" else "ltr"
  }
}
