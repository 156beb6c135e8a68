/**
 * The extension on the platform spell checker (UITextChecker): an input
 * gate and three wrappers that ask the checker only when the gate admits
 * the word. The checker itself is a black box, seen only through the
 * answers it gives.
 */
module SpellChecker {
  import opened Wrappers

  /**
   * The platform spell checker. `isLetter` is membership in the letter set
   * whose complement is the non-letter set the gate searches for. The
   * other three are the checker's own services, asked about the whole
   * word: partial-word completions, guesses, and the location of the first
   * misspelled range. `None` stands for an answer that is not a list of
   * strings (read as empty) and, for the location, for "not found".
   */
  datatype TextChecker = TextChecker(
    isLetter: char -> bool,
    partialWordCompletions: (string, string) -> Option<seq<string>>,
    wordGuesses: (string, string) -> Option<seq<string>>,
    misspelledLocation: (string, string) -> Option<nat>)

  /** The one language tag for which the gate is strict. */
  const English: string := "en"

  predicate AllLetters(checker: TextChecker, word: string)
  {
    forall i :: 0 <= i < |word| ==> checker.isLetter(word[i])
  }

  /** The word can be converted to the ASCII encoding. */
  predicate AsciiEncodable(word: string)
  {
    forall i :: 0 <= i < |word| ==> word[i] as int < 128
  }

  /**
   * `isValidWord`: whether the word may be handed to the checker. Any
   * non-letter rejects; a language other than exactly "en" admits; for
   * "en" the word must be longer than two characters and ASCII.
   */
  predicate IsValidWord(checker: TextChecker, word: string, language: string)
  {
    if !AllLetters(checker, word) then false
    else if language != English then true
    else if |word| <= 2 then false
    else AsciiEncodable(word)
  }

  /** The gate, case by case. */
  lemma GateCases(checker: TextChecker, word: string, language: string)
    ensures (exists i :: 0 <= i < |word| && !checker.isLetter(word[i])) ==> !IsValidWord(checker, word, language)
    ensures AllLetters(checker, word) && language != English ==> IsValidWord(checker, word, language)
    ensures language == English && |word| <= 2 ==> !IsValidWord(checker, word, language)
    ensures language == English && |word| > 2 ==>
      (IsValidWord(checker, word, language) <==> AllLetters(checker, word) && AsciiEncodable(word))
  {
  }

  /**
   * A language tag longer than "en" that merely starts with it, such as
   * "en_US", does not make the gate strict: a two-letter word passes.
   */
  lemma GateIsExactOnLanguage(checker: TextChecker, word: string)
    requires AllLetters(checker, word)
    ensures IsValidWord(checker, word, "en_US")
    ensures |word| <= 2 ==> !IsValidWord(checker, word, English)
  {
  }

  /** `completions(word, language)`: the checker's completions of the whole word. */
  function Completions(checker: TextChecker, word: string, language: string): (r: seq<string>)
    ensures !IsValidWord(checker, word, language) ==> r == []
    ensures IsValidWord(checker, word, language) ==> r == checker.partialWordCompletions(word, language).GetOr([])
  {
    if !IsValidWord(checker, word, language) then []
    else checker.partialWordCompletions(word, language).GetOr([])
  }

  /** `guesses(word, language)`: the checker's guesses for the whole word. */
  function Guesses(checker: TextChecker, word: string, language: string): (r: seq<string>)
    ensures !IsValidWord(checker, word, language) ==> r == []
    ensures IsValidWord(checker, word, language) ==> r == checker.wordGuesses(word, language).GetOr([])
  {
    if !IsValidWord(checker, word, language) then []
    else checker.wordGuesses(word, language).GetOr([])
  }

  /**
   * `isMisspelled(word, language)`. Despite its name it answers true when
   * the checker finds NO misspelled range, and false when the gate
   * rejects the word.
   */
  function IsMisspelled(checker: TextChecker, word: string, language: string): (r: bool)
    ensures r <==> IsValidWord(checker, word, language) && checker.misspelledLocation(word, language).None?
  {
    if !IsValidWord(checker, word, language) then false
    else checker.misspelledLocation(word, language) == None
  }

  /**
   * When the gate rejects a word, the three wrappers do not depend on the
   * checker's answers at all: any checker with the same letter set gives
   * the same empty or false results.
   */
  lemma GateShieldsChecker(checker: TextChecker, other: TextChecker, word: string, language: string)
    requires other.isLetter == checker.isLetter
    requires !IsValidWord(checker, word, language)
    ensures Completions(checker, word, language) == Completions(other, word, language) == []
    ensures Guesses(checker, word, language) == Guesses(other, word, language) == []
    ensures !IsMisspelled(checker, word, language) && !IsMisspelled(other, word, language)
  {
    assert AllLetters(checker, word) == AllLetters(other, word);
  }
}
