/**
 * A keyboard vocabulary: a word-rank table for one language plus the
 * platform spell checker, answering completion, correction and spelling
 * queries for the word the user is typing (the query's placement).
 */
module Vocabularies {
  import opened Wrappers
  import opened Text
  import opened Ranking
  import SpellChecker

  class KeyboardVocabulary {
    const language: string
    /** The word list the table was built from, in order. */
    ghost const source: seq<string>
    const words: map<string, int>
    const checker: SpellChecker.TextChecker

    /** The table is the rank table of the word list. */
    ghost predicate Valid()
    {
      words == RankTable(source)
    }

    /**
     * Builds the table from a comma-separated list: each piece maps to its
     * position, a repeated piece keeps its last position, and nothing is
     * case-folded.
     */
    constructor (language: string, commaSeparatedWords: string, checker: SpellChecker.TextChecker)
      ensures this.language == language && this.checker == checker
      ensures source == Split(commaSeparatedWords, ',')
      ensures Valid()
      ensures KeysAreListed(words, source) && RanksAreLastOccurrences(words, source)
    {
      this.language := language;
      this.checker := checker;
      var pieces := Split(commaSeparatedWords, ',');
      var score := 0;
      var table: map<string, int> := map[];
      while score < |pieces|
        invariant 0 <= score <= |pieces|
        invariant table == RankTable(pieces[..score])
      {
        assert pieces[..score + 1][..score] == pieces[..score];
        table := table[pieces[score] := score];
        score := score + 1;
      }
      assert pieces[..score] == pieces;
      this.source := pieces;
      this.words := table;
      RankTableLastOccurrence(pieces);
    }

    /** `score(word)`: the word's rank, the position of its last occurrence in the list. */
    function Score(word: string): (r: Option<int>)
      requires Valid()
      ensures r.None? <==> word !in source
      ensures r.Some? ==>
        && 0 <= r.value < |source| && source[r.value] == word
        && forall j :: r.value < j < |source| ==> source[j] != word
    {
      RankTableLastOccurrence(source);
      if word in words then Some(words[word]) else None
    }

    /**
     * The table pass of `completions(query)`: every table word that extends
     * the lowercase placement and is longer than it becomes the placement
     * followed by the rest of the word, scored by its rank.
     */
    method DictionaryCompletions(placement: string) returns (scored: seq<Scored>)
      ensures multiset(scored) == multiset(DictionaryCandidates(words, placement))
    {
      var lowercasePrefix := Lower(placement);
      var prefixLength := |placement|;
      scored := [];
      // The table, in no particular order.
      var remaining := words.Keys;
      ghost var visited: set<string> := {};
      while remaining != {}
        invariant remaining + visited == words.Keys && remaining !! visited
        invariant multiset(scored) == multiset(CandidatesFrom(words, placement, visited))
        decreases remaining
      {
        var word :| word in remaining;
        CandidatesFromStep(words, placement, visited, word);
        if HasPrefix(word, lowercasePrefix) && |word| > prefixLength {
          var candidate := Scored(placement + word[prefixLength..], words[word]);
          assert candidate == Scored(Extend(placement, word), words[word]);
          scored := scored + [candidate];
        }
        remaining := remaining - {word};
        visited := visited + {word};
      }
    }

    /**
     * `completions(query)`. The table's candidates and all the checker's
     * completions, scored by rank or else by 100000 plus their length, are
     * sorted by score (`merged`), cut to ten and uppercased after an
     * all-caps placement.
     */
    method Completions(placement: string) returns (r: seq<string>, ghost merged: seq<Scored>)
      ensures placement == [] ==> r == [] && merged == []
      ensures placement != [] ==>
        IsRankedMerge(merged, words, placement, SpellChecker.Completions(checker, placement, language))
      ensures r == Present(placement, merged)
      ensures |r| <= MaxCompletionsCount
      ensures IsAllCapsPrefix(placement) ==> forall i :: 0 <= i < |r| ==> IsUppercase(r[i])
    {
      if placement == [] {
        return [], [];
      }
      var prefixLength := |placement|;
      var scored := DictionaryCompletions(placement);

      // The spell checker's completions, duplicates kept.
      var checkerCompletions := SpellChecker.Completions(checker, placement, language);
      scored := scored + CheckerCandidates(words, checkerCompletions);

      var sorted := SortByScore(scored);
      var completions := WordsOf(sorted);
      if |completions| > MaxCompletionsCount {
        completions := completions[..MaxCompletionsCount];
      }
      if prefixLength > 1 && placement == Upper(placement) {
        completions := UpperAll(completions);
      }
      r, merged := completions, sorted;
      PresentShape(placement, merged);
    }

    /**
     * `corrections(query)`: nothing for an empty placement, otherwise the
     * checker's guesses for it, at most the first hundred, in the
     * checker's order.
     */
    function Corrections(placement: string): (r: seq<string>)
      ensures placement == [] ==> r == []
      ensures placement != [] ==>
        var guesses := SpellChecker.Guesses(checker, placement, language);
        |r| == Min(MaxCorrectionsCount, |guesses|) && r == guesses[..|r|]
    {
      if placement == [] then []
      else
        var corrections := SpellChecker.Guesses(checker, placement, language);
        if |corrections| > MaxCorrectionsCount then corrections[..MaxCorrectionsCount] else corrections
    }

    /**
     * `isSpellProperly(query)`: an empty placement and a placement whose
     * lowercase form is in the table are properly spelled; otherwise the
     * answer is the checker wrapper's `isMisspelled`, which is true exactly
     * when the gate admits the word and the checker finds no misspelled
     * range.
     */
    function IsSpellProperly(placement: string): (r: bool)
      ensures placement == [] ==> r
      ensures Lower(placement) in words ==> r
      ensures placement != [] && Lower(placement) !in words ==>
        (r <==> SpellChecker.IsValidWord(checker, placement, language) &&
                checker.misspelledLocation(placement, language).None?)
    {
      if placement == [] then true
      else if Lower(placement) in words then true
      else SpellChecker.IsMisspelled(checker, placement, language)
    }

    /**
     * The spelling verdict with the gate failing open: a word the gate
     * keeps from the checker is not flagged. It agrees with
     * `IsSpellProperly` on every word the gate admits.
     */
    function IsSpellProperlyFailOpen(placement: string): (r: bool)
      ensures !SpellChecker.IsValidWord(checker, placement, language) ==> r
      ensures SpellChecker.IsValidWord(checker, placement, language) ==> r == IsSpellProperly(placement)
    {
      if placement == [] then true
      else if Lower(placement) in words then true
      else if !SpellChecker.IsValidWord(checker, placement, language) then true
      else SpellChecker.IsMisspelled(checker, placement, language)
    }
  }

  // -----------------------------------------------------------------------
  // Properties of the queries

  /**
   * Completions are bounded by ten; after an all-caps placement of more
   * than one character every completion is all-caps; otherwise they are
   * the best-scored merged words in order, and a table candidate precedes
   * every checker completion the table does not know when ranks stay
   * below 100000.
   */
  lemma CompletionsShape(v: KeyboardVocabulary, placement: string, r: seq<string>, merged: seq<Scored>)
    requires placement != []
    requires IsRankedMerge(merged, v.words, placement, SpellChecker.Completions(v.checker, placement, v.language))
    requires r == Present(placement, merged)
    ensures |r| == Min(MaxCompletionsCount,
      |DictionaryCandidates(v.words, placement)| + |SpellChecker.Completions(v.checker, placement, v.language)|)
    ensures IsAllCapsPrefix(placement) ==> forall i :: 0 <= i < |r| ==> IsUppercase(r[i])
    ensures !IsAllCapsPrefix(placement) ==> forall i :: 0 <= i < |r| ==> r[i] == merged[i].word
    ensures forall i, j :: 0 <= i < j < |r| ==> merged[i].score <= merged[j].score
  {
    RankedMergeSize(merged, v.words, placement, SpellChecker.Completions(v.checker, placement, v.language));
    PresentShape(placement, merged);
  }

  /**
   * As written, a short English word missing from the table is reported
   * as not properly spelled without asking the checker; failing open, it
   * is not flagged.
   */
  lemma ShortEnglishWordIsFlagged(v: KeyboardVocabulary)
    requires v.language == "en"
    requires "ok" !in v.words
    ensures !v.IsSpellProperly("ok")
    ensures v.IsSpellProperlyFailOpen("ok")
  {
    assert Lower("ok") == "ok";
  }
}
