/**
 * The ranking side of the vocabulary: the word-to-rank table built from a
 * word list, the scored candidates a completion query collects, their
 * ordering by score, and how the ordered list is cut and cased for the
 * caller.
 */
module Ranking {
  import opened Text

  const MaxCompletionsCount: nat := 10
  const MaxCorrectionsCount: nat := 100
  /** Score floor for a checker completion the table does not know. */
  const UnknownWordScore: int := 100000

  function Min(a: nat, b: nat): nat
  {
    if a <= b then a else b
  }

  // ---------------------------------------------------------------------
  // The rank table

  /**
   * The table the vocabulary builds from its word list: each word maps to
   * its position, so a word listed twice keeps the position of its last
   * occurrence.
   */
  function RankTable(pieces: seq<string>): map<string, int>
  {
    if pieces == [] then map[]
    else RankTable(pieces[..|pieces| - 1])[pieces[|pieces| - 1] := |pieces| - 1]
  }

  /** The table's keys are exactly the listed words. */
  ghost predicate KeysAreListed(t: map<string, int>, pieces: seq<string>)
  {
    forall w :: w in t <==> w in pieces
  }

  /** Every word maps to the index of its last occurrence in the list. */
  ghost predicate RanksAreLastOccurrences(t: map<string, int>, pieces: seq<string>)
  {
    forall w | w in t ::
      0 <= t[w] < |pieces| && pieces[t[w]] == w &&
      forall j :: t[w] < j < |pieces| ==> pieces[j] != w
  }

  lemma {:induction false} RankTableLastOccurrence(pieces: seq<string>)
    ensures KeysAreListed(RankTable(pieces), pieces)
    ensures RanksAreLastOccurrences(RankTable(pieces), pieces)
    decreases |pieces|
  {
    if pieces != [] {
      var n := |pieces| - 1;
      var init := pieces[..n];
      RankTableLastOccurrence(init);
      var t := RankTable(pieces);
      assert t == RankTable(init)[pieces[n] := n];
      assert pieces == init + [pieces[n]];
      forall w
        ensures w in t <==> w in pieces
      {
        if w in pieces && w != pieces[n] {
          var k :| 0 <= k < |pieces| && pieces[k] == w;
          assert init[k] == w;
        }
      }
    }
  }

  /** The empty word list "" is one empty word, ranked 0. */
  lemma EmptyListTable()
    ensures RankTable(Split("", ',')) == map["" := 0]
  {
    assert Split("", ',') == [""];
    assert [""][..0] == [];
  }

  // ---------------------------------------------------------------------
  // Scored candidates

  datatype Scored = Scored(word: string, score: int)

  /** The score of a word the spell checker proposes. */
  function CheckerScore(words: map<string, int>, w: string): (r: int)
    ensures w in words ==> r == words[w]
    ensures w !in words ==> r >= UnknownWordScore && r - UnknownWordScore == |w|
  {
    if w in words then words[w] else UnknownWordScore + |w|
  }

  /** The checker's completions, each with its score, in the checker's order. */
  function CheckerCandidates(words: map<string, int>, completions: seq<string>): (r: seq<Scored>)
    ensures |r| == |completions|
    ensures forall i :: 0 <= i < |r| ==> r[i] == Scored(completions[i], CheckerScore(words, completions[i]))
  {
    seq(|completions|, i requires 0 <= i < |completions| => Scored(completions[i], CheckerScore(words, completions[i])))
  }

  /** A stored word completes the typed prefix: it extends its lowercase form. */
  predicate Completes(w: string, prefix: string)
  {
    HasPrefix(w, Lower(prefix)) && |w| > |prefix|
  }

  /** The typed prefix, in the caller's casing, followed by the rest of `w`. */
  function Extend(prefix: string, w: string): string
    requires |prefix| <= |w|
  {
    prefix + w[|prefix|..]
  }

  /** The candidates the table words in `keys` contribute for `prefix`. */
  ghost function CandidatesFrom(words: map<string, int>, prefix: string, keys: set<string>): set<Scored>
  {
    set w | w in keys && w in words && Completes(w, prefix) :: Scored(Extend(prefix, w), words[w])
  }

  /** All candidates the table contributes for `prefix`. */
  ghost function DictionaryCandidates(words: map<string, int>, prefix: string): set<Scored>
  {
    CandidatesFrom(words, prefix, words.Keys)
  }

  /** Distinct completing words give distinct candidates. */
  lemma ExtendInjective(prefix: string, w1: string, w2: string)
    requires Completes(w1, prefix) && Completes(w2, prefix)
    requires Extend(prefix, w1) == Extend(prefix, w2)
    ensures w1 == w2
  {
    var n := |prefix|;
    assert w1[n..] == Extend(prefix, w1)[n..];
    assert w2[n..] == Extend(prefix, w2)[n..];
    assert w1 == w1[..n] + w1[n..];
    assert w2 == w2[..n] + w2[n..];
  }

  /** Visiting one more table word adds at most its own, new, candidate. */
  lemma CandidatesFromStep(words: map<string, int>, prefix: string, keys: set<string>, w: string)
    requires w in words && w !in keys
    ensures Completes(w, prefix) ==>
      Scored(Extend(prefix, w), words[w]) !in CandidatesFrom(words, prefix, keys) &&
      CandidatesFrom(words, prefix, keys + {w}) == CandidatesFrom(words, prefix, keys) + {Scored(Extend(prefix, w), words[w])}
    ensures !Completes(w, prefix) ==>
      CandidatesFrom(words, prefix, keys + {w}) == CandidatesFrom(words, prefix, keys)
  {
    if Completes(w, prefix) {
      var c := Scored(Extend(prefix, w), words[w]);
      if c in CandidatesFrom(words, prefix, keys) {
        var v :| v in keys && v in words && Completes(v, prefix) && Scored(Extend(prefix, v), words[v]) == c;
        ExtendInjective(prefix, v, w);
        assert false;
      }
    }
  }

  /**
   * A table candidate keeps what the caller typed and adds at least one
   * character to it; a stored word equal to the lowercase prefix yields
   * nothing. Conversely every completing stored word yields a candidate
   * scored by its rank.
   */
  lemma DictionaryCandidateShape(words: map<string, int>, prefix: string)
    ensures forall c | c in DictionaryCandidates(words, prefix) ::
      HasPrefix(c.word, prefix) && |c.word| > |prefix| && c.score in words.Values
    ensures forall w | w in words && Completes(w, prefix) ::
      Scored(Extend(prefix, w), words[w]) in DictionaryCandidates(words, prefix)
    ensures Lower(prefix) in words ==> !Completes(Lower(prefix), prefix)
  {
    forall c | c in DictionaryCandidates(words, prefix)
      ensures HasPrefix(c.word, prefix) && |c.word| > |prefix| && c.score in words.Values
    {
      var w :| w in words && Completes(w, prefix) && c == Scored(Extend(prefix, w), words[w]);
      assert c.word[..|prefix|] == prefix;
    }
  }

  // ---------------------------------------------------------------------
  // Ordering by score

  /** Non-decreasing scores: a lower score comes first. */
  ghost predicate SortedByScore(s: seq<Scored>)
  {
    forall i, j :: 0 <= i < j < |s| ==> s[i].score <= s[j].score
  }

  /** `x` placed into a list before the first entry scoring at least as much. */
  function InsertByScore(x: Scored, s: seq<Scored>): (r: seq<Scored>)
    ensures multiset(r) == multiset(s) + multiset{x}
    decreases |s|
  {
    if s == [] then [x]
    else if x.score <= s[0].score then [x] + s
    else
      assert s == [s[0]] + s[1..];
      [s[0]] + InsertByScore(x, s[1..])
  }

  /** Inserting into an ordered list keeps it ordered. */
  lemma {:induction false} InsertKeepsOrder(x: Scored, s: seq<Scored>)
    requires SortedByScore(s)
    ensures SortedByScore(InsertByScore(x, s))
    decreases |s|
  {
    if s != [] && x.score > s[0].score {
      var rest := InsertByScore(x, s[1..]);
      InsertKeepsOrder(x, s[1..]);
      assert SortedByScore(rest);
      forall k | 0 <= k < |rest|
        ensures s[0].score <= rest[k].score
      {
        assert rest[k] in multiset(s[1..]) + multiset{x};
        if rest[k] != x {
          assert rest[k] in s[1..];
          var m :| 0 <= m < |s[1..]| && s[1..][m] == rest[k];
          assert s[m + 1] == rest[k];
        }
      }
      var r := [s[0]] + rest;
      assert r == InsertByScore(x, s);
      forall i, j | 0 <= i < j < |r|
        ensures r[i].score <= r[j].score
      {
        if i > 0 {
          assert r[i] == rest[i - 1] && r[j] == rest[j - 1];
        } else {
          assert r[j] == rest[j - 1];
        }
      }
    }
  }

  /** `sortInPlace` by ascending score: the candidates reordered, none lost or added. */
  method SortByScore(xs: seq<Scored>) returns (ys: seq<Scored>)
    ensures SortedByScore(ys)
    ensures multiset(ys) == multiset(xs)
  {
    ys := [];
    var i := 0;
    while i < |xs|
      invariant 0 <= i <= |xs|
      invariant SortedByScore(ys)
      invariant multiset(ys) == multiset(xs[..i])
    {
      assert xs[..i + 1] == xs[..i] + [xs[i]];
      InsertKeepsOrder(xs[i], ys);
      ys := InsertByScore(xs[i], ys);
      i := i + 1;
    }
    assert xs[..i] == xs;
  }

  /**
   * What the completion query has sorted before it is cut and cased: the
   * table's candidates and all the checker's completions, duplicates kept,
   * in non-decreasing order of score.
   */
  ghost predicate IsRankedMerge(merged: seq<Scored>, words: map<string, int>, prefix: string, completions: seq<string>)
  {
    multiset(merged) == multiset(DictionaryCandidates(words, prefix)) + multiset(CheckerCandidates(words, completions))
    && SortedByScore(merged)
  }

  /** The merge holds each table candidate once and each checker completion as often as it was proposed. */
  lemma RankedMergeSize(merged: seq<Scored>, words: map<string, int>, prefix: string, completions: seq<string>)
    requires IsRankedMerge(merged, words, prefix, completions)
    ensures |merged| == |DictionaryCandidates(words, prefix)| + |completions|
  {
    assert |multiset(merged)| == |merged|;
    assert |multiset(CheckerCandidates(words, completions))| == |completions|;
    SetMultisetSize(DictionaryCandidates(words, prefix));
  }

  lemma SetMultisetSize<T>(s: set<T>)
    ensures |multiset(s)| == |s|
  {
    if s != {} {
      var x :| x in s;
      SetMultisetSize(s - {x});
      assert multiset(s) == multiset(s - {x}) + multiset{x};
    }
  }

  /**
   * With every rank below the unknown-word floor, an entry scored by a
   * rank (a table candidate, or a checker completion the table knows)
   * comes before every checker completion the table does not know,
   * whatever order the checker proposed them in.
   */
  lemma DictionaryBeforeUnknown(merged: seq<Scored>, words: map<string, int>, prefix: string,
                                completions: seq<string>, i: nat, j: nat)
    requires forall w | w in words :: words[w] < UnknownWordScore
    requires IsRankedMerge(merged, words, prefix, completions)
    requires i < |merged| && j < |merged|
    requires || merged[i] in DictionaryCandidates(words, prefix)
             || (merged[i] in CheckerCandidates(words, completions) && merged[i].word in words)
    requires merged[j] in CheckerCandidates(words, completions) && merged[j].word !in words
    ensures i < j
  {
    if merged[i] in DictionaryCandidates(words, prefix) {
      var w :| w in words && Completes(w, prefix) && merged[i] == Scored(Extend(prefix, w), words[w]);
    } else {
      var k :| 0 <= k < |completions| && merged[i] == CheckerCandidates(words, completions)[k];
    }
    assert merged[i].score < UnknownWordScore;
    var k :| 0 <= k < |completions| && merged[j] == CheckerCandidates(words, completions)[k];
    assert merged[j].score >= UnknownWordScore;
  }

  // ---------------------------------------------------------------------
  // Presentation

  function WordsOf(s: seq<Scored>): (r: seq<string>)
    ensures |r| == |s|
    ensures forall i :: 0 <= i < |s| ==> r[i] == s[i].word
  {
    seq(|s|, i requires 0 <= i < |s| => s[i].word)
  }

  function UpperAll(ws: seq<string>): (r: seq<string>)
    ensures |r| == |ws|
    ensures forall i :: 0 <= i < |ws| ==> r[i] == Upper(ws[i])
  {
    seq(|ws|, i requires 0 <= i < |ws| => Upper(ws[i]))
  }

  /** The prefix was typed in capitals: more than one character, all-caps. */
  predicate IsAllCapsPrefix(prefix: string)
  {
    |prefix| > 1 && IsUppercase(prefix)
  }

  /** The merged list as the caller receives it: its first ten words, uppercased after an all-caps prefix. */
  function Present(prefix: string, merged: seq<Scored>): seq<string>
  {
    var ws := WordsOf(merged);
    var cut := if |ws| > MaxCompletionsCount then ws[..MaxCompletionsCount] else ws;
    if IsAllCapsPrefix(prefix) then UpperAll(cut) else cut
  }

  /**
   * The caller gets the best-scored ten entries, in order; after an
   * all-caps prefix every entry is all-caps, otherwise the entries are the
   * merged words themselves.
   */
  lemma PresentShape(prefix: string, merged: seq<Scored>)
    ensures |Present(prefix, merged)| == Min(MaxCompletionsCount, |merged|)
    ensures IsAllCapsPrefix(prefix) ==>
      forall i :: 0 <= i < |Present(prefix, merged)| ==>
        Present(prefix, merged)[i] == Upper(merged[i].word) && IsUppercase(Present(prefix, merged)[i])
    ensures !IsAllCapsPrefix(prefix) ==>
      forall i :: 0 <= i < |Present(prefix, merged)| ==> Present(prefix, merged)[i] == merged[i].word
  {
    if IsAllCapsPrefix(prefix) {
      forall i | 0 <= i < |Present(prefix, merged)|
        ensures IsUppercase(Present(prefix, merged)[i])
      {
        UpperIsUppercase(merged[i].word);
      }
    }
  }
}
