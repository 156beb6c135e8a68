# KeyboardVocabulary, modelled in Dafny

A model of the suggestion core of KeyboardKit, `KeyboardVocabulary.swift`.
A keyboard vocabulary holds a table that maps known words to ranks. Lower
ranks are preferred. It also holds the platform spell checker
(`UITextChecker`). It answers three queries about the word being typed
(the query's *placement*):

- completions: table words that extend the placement, merged with the
  checker's completions, sorted by score, cut to ten, and uppercased
  after an all-caps placement;
- corrections: the checker's guesses, cut to a hundred;
- a spelling verdict: a table hit means properly spelled; otherwise the
  checker decides.

Every call to the checker goes through a gate, `isValidWord`. A static
registry hands out vocabularies by language tag. It has two built-ins
("en", "ru") and a cache for every other tag.

Files and modules:

- `wrappers.dfy` (`Wrappers`): `Option`, Swift's `T?`.
- `text.dfy` (`Text`): per-character case mapping, `hasPrefix`, and
  `componentsSeparatedByString` (`Split`) with its inverse `Join`.
- `spell_checker.dfy` (`SpellChecker`): the `UITextChecker` extension.
  The checker is a datatype of function values: its letter set, and its
  completion, guess and misspelled-range answers.
- `ranking.dfy` (`Ranking`): the rank table, scored candidates,
  ordering by score, and how the merged list is presented.
- `keyboard_vocabulary.dfy` (`Vocabularies`): class `KeyboardVocabulary`.
  Its fields are constants because the Swift class's fields are `let`.
- `vocabulary_registry.dfy` (`VocabularyRegistry`): class `Registry`.
  It holds the static `cachedVocabularies` as a mutable field.

Three behaviours of the code worth stating up front:

- The table stores words as listed, without lowercasing them.
- The gate is strict only for a language tag equal to "en". A tag like
  "en_US" is not strict.
- `isSpellProperly` returns the wrapper's `isMisspelled` as it is. That
  wrapper is true when the checker finds no misspelled range. So for a
  word the gate admits, the verdict reads correctly. A word the gate
  rejects is reported as not properly spelled (see Findings).

## Model

| member | source | states |
|---|---|---|
| `SpellChecker.GateCases` | Suggestions/Linguistics/Vocabularies/KeyboardVocabulary.swift:14-28 | a non-letter rejects; any language other than exactly "en" admits an all-letter word; for "en" a word of length ≤ 2 is rejected, and a longer one passes iff all letters and ASCII |
| `SpellChecker.GateIsExactOnLanguage` | Suggestions/Linguistics/Vocabularies/KeyboardVocabulary.swift:19-25 | "en_US" admits any all-letter word, including two-letter ones that "en" rejects |
| `SpellChecker.Completions` | Suggestions/Linguistics/Vocabularies/KeyboardVocabulary.swift:30-38 | empty when the gate rejects; otherwise the checker's completions, with a non-list answer read as empty |
| `SpellChecker.Guesses` | Suggestions/Linguistics/Vocabularies/KeyboardVocabulary.swift:40-48 | empty when the gate rejects; otherwise the checker's guesses, with a non-list answer read as empty |
| `SpellChecker.IsMisspelled` | Suggestions/Linguistics/Vocabularies/KeyboardVocabulary.swift:50-64 | true iff the gate admits the word and the checker reports no misspelled range (the inverted sense) |
| `SpellChecker.GateShieldsChecker` | Suggestions/Linguistics/Vocabularies/KeyboardVocabulary.swift:30-64 | when the gate rejects, all three wrappers give []/[]/false for every checker with the same letter set, so the checker's answers are never used |
| `Text.Split` | Suggestions/Linguistics/Vocabularies/KeyboardVocabulary.swift:83 | splitting gives at least one piece, and no piece contains the separator |
| `Text.JoinSplit` | Suggestions/Linguistics/Vocabularies/KeyboardVocabulary.swift:83 | joining the pieces with commas gives the word list back |
| `Text.SplitJoin` | Suggestions/Linguistics/Vocabularies/KeyboardVocabulary.swift:83 | splitting comma-joined comma-free pieces gives exactly those pieces |
| `Ranking.RankTableLastOccurrence` | Suggestions/Linguistics/Vocabularies/KeyboardVocabulary.swift:78-89 | the table's keys are exactly the listed words; each maps to the index of its last occurrence |
| `Ranking.EmptyListTable` | Suggestions/Linguistics/Vocabularies/KeyboardVocabulary.swift:78-89 | an empty word list builds the table {"": 0} |
| `Vocabularies.KeyboardVocabulary.constructor` | Suggestions/Linguistics/Vocabularies/KeyboardVocabulary.swift:78-89 | the loop builds the rank table of the comma-split list: keys are the pieces, ranks are last occurrences |
| `Vocabularies.KeyboardVocabulary.Score` | Suggestions/Linguistics/Vocabularies/KeyboardVocabulary.swift:91-93 | absent iff the word is not listed; otherwise the position of its last occurrence in the list |
| `Ranking.CheckerScore` | Suggestions/Linguistics/Vocabularies/KeyboardVocabulary.swift:131 | a checker completion scores its rank if listed, else 100000 plus its length (so at least 100000) |
| `Ranking.CheckerCandidates` | Suggestions/Linguistics/Vocabularies/KeyboardVocabulary.swift:129-133 | every checker completion is kept, in the checker's order, each with its score |
| `Ranking.ExtendInjective` | Suggestions/Linguistics/Vocabularies/KeyboardVocabulary.swift:107-116 | distinct table words give distinct rewritten candidates |
| `Ranking.CandidatesFromStep` | Suggestions/Linguistics/Vocabularies/KeyboardVocabulary.swift:107-116 | visiting one more table word adds exactly its own new candidate, or nothing if it does not complete the prefix |
| `Ranking.DictionaryCandidateShape` | Suggestions/Linguistics/Vocabularies/KeyboardVocabulary.swift:107-116 | every table candidate starts with the caller's prefix and is strictly longer; every completing table word yields one, scored by its rank; a stored word equal to the lowercase prefix yields none |
| `Vocabularies.KeyboardVocabulary.DictionaryCompletions` | Suggestions/Linguistics/Vocabularies/KeyboardVocabulary.swift:105-117 | the loop over the table, in any order, collects exactly the table candidates, each once |
| `Ranking.InsertByScore` | Suggestions/Linguistics/Vocabularies/KeyboardVocabulary.swift:138-140 | inserting adds the entry and loses nothing |
| `Ranking.InsertKeepsOrder` | Suggestions/Linguistics/Vocabularies/KeyboardVocabulary.swift:138-140 | inserting into a list in ascending score order keeps it in order |
| `Ranking.SortByScore` | Suggestions/Linguistics/Vocabularies/KeyboardVocabulary.swift:138-140 | the result is in non-decreasing score order and is a permutation of the input |
| `Ranking.RankedMergeSize` | Suggestions/Linguistics/Vocabularies/KeyboardVocabulary.swift:129-142 | the merged list has one entry per table candidate plus one per checker completion, duplicates kept |
| `Ranking.DictionaryBeforeUnknown` | Suggestions/Linguistics/Vocabularies/KeyboardVocabulary.swift:129-142 | if all ranks are below 100000, every entry scored by a rank (a table candidate, or a checker completion the table knows) comes before every checker completion the table does not know |
| `Ranking.PresentShape` | Suggestions/Linguistics/Vocabularies/KeyboardVocabulary.swift:142-151 | the caller gets min(10, n) entries; after an all-caps prefix each is the uppercased merged word and is all-caps; otherwise each is the merged word at that position |
| `Text.UpperIsUppercase` | Suggestions/Linguistics/Vocabularies/KeyboardVocabulary.swift:149-150 | an uppercased word is all-caps |
| `Vocabularies.KeyboardVocabulary.Completions` | Suggestions/Linguistics/Vocabularies/KeyboardVocabulary.swift:95-154 | empty placement gives []; otherwise the sorted list is a permutation of the table candidates plus all checker completions, in score order, and the result is its first ten words, uppercased after an all-caps placement; so at most 10 results, all-caps after an all-caps placement of length > 1 |
| `Vocabularies.CompletionsShape` | Suggestions/Linguistics/Vocabularies/KeyboardVocabulary.swift:144-151 | at most 10 results (exactly min(10, candidates + checker completions)); all-caps after an all-caps placement of length > 1; otherwise the best-scored merged words in order |
| `Vocabularies.KeyboardVocabulary.Corrections` | Suggestions/Linguistics/Vocabularies/KeyboardVocabulary.swift:164-176 | [] for an empty placement; otherwise exactly the first min(100, n) checker guesses, in the checker's order |
| `Vocabularies.KeyboardVocabulary.IsSpellProperly` | Suggestions/Linguistics/Vocabularies/KeyboardVocabulary.swift:179-201 | true for an empty placement and for any placement whose lowercase form is in the table; otherwise true iff the gate admits it and the checker reports no misspelled range |
| `Vocabularies.ShortEnglishWordIsFlagged` | Suggestions/Linguistics/Vocabularies/KeyboardVocabulary.swift:182-200 | for "en", "ok" missing from the table is reported as not properly spelled; the fail-open verdict does not flag it |
| `Vocabularies.KeyboardVocabulary.IsSpellProperlyFailOpen` | Suggestions/Linguistics/Vocabularies/KeyboardVocabulary.swift:50-64 | a word the gate rejects is not flagged; on admitted words it agrees with the as-written verdict |
| `VocabularyRegistry.LanguageCode` | Suggestions/Linguistics/Vocabularies/KeyboardVocabulary.swift:215 | the code is two characters: the lowercase form of the tag's first two |
| `VocabularyRegistry.BuiltInTags` | Suggestions/Linguistics/Vocabularies/KeyboardVocabulary.swift:210-222 | "en", "EN_gb" and "ru-RU" are built-in; "e", "de" and "uk" are not |
| `VocabularyRegistry.Registry.constructor` | Suggestions/Linguistics/Vocabularies/KeyboardVocabulary.swift:207 | the cache starts empty |
| `VocabularyRegistry.Registry.Vocabulary` | Suggestions/Linguistics/Vocabularies/KeyboardVocabulary.swift:209-232 | None for tags shorter than 2; the built-in for an en/ru code, cache untouched; a cached tag's entry, cache untouched; otherwise a fresh vocabulary with the table {"": 0}, stored under exactly that tag |
| `VocabularyRegistry.Registry.VocabularyTwice` | Suggestions/Linguistics/Vocabularies/KeyboardVocabulary.swift:225-231 | two lookups of the same tag return the same answer; a non-built-in tag is then cached with it |

## Left out

- The spell checker's internals (partial-word completion, guesses, the
  misspelled-range search) are a platform service. They are function
  fields of `TextChecker` and are not defined.
- The non-letter character set is not defined here. It is the checker's
  `isLetter` predicate. ASCII encodability is taken to mean "every code
  point is below 128".
- `englishVocabulary` and `russianVocabulary` are built elsewhere. They
  are given to the registry's constructor as ready-made instances.
- Each vocabulary creates its own `UITextChecker()`. The model passes the
  checker to the constructor instead.
- Full Unicode case mapping is left out. The model's `Lower` and `Upper`
  stand for `lowercaseString` and `uppercaseString`. They map ASCII and
  basic Cyrillic letters one character at a time, so lengths never change.
- NSString lengths (lines 23, 33, 43, 53) count UTF-16 units. Swift's
  `characters.count` and `advancedBy` count grapheme clusters; this
  touches lines 103, 109, 113, 149, 210 and 215. The model counts Unicode
  scalars throughout.
- `Vocabularies.KeyboardVocabulary.Completions`: the order among entries
  with equal scores is not stated. The table is visited in an
  unspecified order and `sortInPlace` is not stable, so the contract
  gives sortedness and permutation only.
- `sortInPlace` is modelled as an insertion sort over a sequence, not an
  in-place sort of an array.
- Swift 2's `hasPrefix("")` answers false. This never matters here,
  because the prefix is never empty where `hasPrefix` is called.
- The registry's static map is not thread-safe. The model is
  single-threaded.
- The query's `context` and `range` are not modelled. Only `placement`
  is used.
- Commented-out code is not modelled.
- `SpellChecker.IsValidWord` is a predicate without a contract of its
  own. `SpellChecker.GateCases` states it case by case.

## Findings

| source | as written | input that shows it | evidently intended | confidence | as-written member | corrected member |
|---|---|---|---|---|---|---|
| Suggestions/Linguistics/Vocabularies/KeyboardVocabulary.swift:55 | the gate's `return false` in `isMisspelled` means "not misspelled" by the wrapper's name. But the wrapper's real answer means "properly spelled", and `isSpellProperly` returns it unchanged (line 200). So a word the gate rejects is flagged as misspelled without the checker being asked | language "en", placement "ok" not in the table: `isSpellProperly` is false | a word the gate rejects is not flagged (fail open) | medium; not executed | `Vocabularies.ShortEnglishWordIsFlagged` (on `Vocabularies.KeyboardVocabulary.IsSpellProperly`) | `Vocabularies.KeyboardVocabulary.IsSpellProperlyFailOpen` |
