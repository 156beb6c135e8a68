/**
 * The process-wide lookup of a vocabulary by language tag: two built-in
 * vocabularies chosen by the tag's first two letters, and a cache of the
 * vocabularies made for every other tag.
 */
module VocabularyRegistry {
  import opened Wrappers
  import opened Text
  import SpellChecker
  import opened Vocabularies
  import Ranking

  /** The first two letters of the tag, lowercased. */
  function LanguageCode(language: string): (r: string)
    requires |language| >= 2
    ensures |r| == 2 && r == Lower(language)[..2]
  {
    LowerPrefix(language, 2);
    Lower(language[..2])
  }

  /** The tag resolves to a built-in vocabulary. */
  predicate IsBuiltIn(language: string)
  {
    |language| >= 2 && (LanguageCode(language) == "en" || LanguageCode(language) == "ru")
  }

  /**
   * The static state of the vocabulary lookup: the two built-in
   * vocabularies and `cachedVocabularies`, which maps a full language tag
   * to the vocabulary made for it (an entry may hold no vocabulary).
   */
  class Registry {
    const englishVocabulary: KeyboardVocabulary
    const russianVocabulary: KeyboardVocabulary
    /** The spell checker handed to every vocabulary the registry makes. */
    const checker: SpellChecker.TextChecker
    var cachedVocabularies: map<string, Option<KeyboardVocabulary>>

    constructor (englishVocabulary: KeyboardVocabulary, russianVocabulary: KeyboardVocabulary,
                 checker: SpellChecker.TextChecker)
      ensures this.englishVocabulary == englishVocabulary
      ensures this.russianVocabulary == russianVocabulary
      ensures this.checker == checker
      ensures cachedVocabularies == map[]
    {
      this.englishVocabulary := englishVocabulary;
      this.russianVocabulary := russianVocabulary;
      this.checker := checker;
      cachedVocabularies := map[];
    }

    /**
     * `vocabulary(language:)`. A tag shorter than two characters has no
     * vocabulary. A tag starting with "en" or "ru" in any casing gets the
     * built-in one and leaves the cache alone. Any other tag gets what the
     * cache holds for it, or else a new vocabulary with an empty word list,
     * which is stored under that tag and nowhere else.
     */
    method Vocabulary(language: string) returns (v: Option<KeyboardVocabulary>)
      modifies this`cachedVocabularies
      ensures |language| < 2 ==> v == None
      ensures IsBuiltIn(language) && LanguageCode(language) == "en" ==> v == Some(englishVocabulary)
      ensures IsBuiltIn(language) && LanguageCode(language) == "ru" ==> v == Some(russianVocabulary)
      ensures |language| < 2 || IsBuiltIn(language) ==> cachedVocabularies == old(cachedVocabularies)
      ensures |language| >= 2 && !IsBuiltIn(language) && language in old(cachedVocabularies) ==>
        v == old(cachedVocabularies)[language] && cachedVocabularies == old(cachedVocabularies)
      ensures |language| >= 2 && !IsBuiltIn(language) && language !in old(cachedVocabularies) ==>
        && v.Some? && fresh(v.value)
        && v.value.language == language && v.value.checker == checker
        && v.value.Valid() && v.value.words == map["" := 0]
        && cachedVocabularies == old(cachedVocabularies)[language := v]
    {
      if |language| < 2 {
        return None;
      }

      // Predefined
      var code := LanguageCode(language);
      if code == "en" {
        return Some(englishVocabulary);
      } else if code == "ru" {
        return Some(russianVocabulary);
      }

      if language in cachedVocabularies {
        return cachedVocabularies[language];
      }

      var vocabulary := new KeyboardVocabulary(language, "", checker);
      Ranking.EmptyListTable();
      cachedVocabularies := cachedVocabularies[language := Some(vocabulary)];
      return Some(vocabulary);
    }

    /** Asking twice for the same tag gives the same answer, for every tag. */
    method VocabularyTwice(language: string) returns (first: Option<KeyboardVocabulary>, second: Option<KeyboardVocabulary>)
      modifies this`cachedVocabularies
      ensures first == second
      ensures |language| >= 2 && !IsBuiltIn(language) ==>
        language in cachedVocabularies && cachedVocabularies[language] == first
    {
      first := Vocabulary(language);
      second := Vocabulary(language);
    }
  }

  /** The built-in tags are matched on their first two letters in any casing. */
  lemma BuiltInTags()
    ensures IsBuiltIn("en") && IsBuiltIn("EN_gb") && IsBuiltIn("ru-RU")
    ensures !IsBuiltIn("e") && !IsBuiltIn("de") && !IsBuiltIn("uk")
  {
    assert LanguageCode("EN_gb") == "en";
    assert LanguageCode("ru-RU") == "ru";
    assert LanguageCode("de") == "de";
    assert LanguageCode("uk") == "uk";
    assert LanguageCode("en") == "en";
  }
}
