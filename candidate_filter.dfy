/** Candidate filtering of `WordleGame` (main.py): `words_filter_initial_requirements` and
    `filter_words` with its three private filters.

    `WordleGame` only stores the word bank it was built with and never changes it, so the bank
    is passed as the parameter `listOfWords`. Feedback for one guess is `lastAttempt` (the word
    played), `rightPositions` (one boolean per position, true where the letter is right) and
    `misplaced` (letters known to be in the target but not where they were played). */
module CandidateFilter {
  import opened Seqs
  import opened AuxiliaryFunctions

  // ---------------------------------------------------------------------------------------
  // Initial requirements
  // ---------------------------------------------------------------------------------------

  /** The three initial requirements together, plus the truthiness test of `filter`. */
  function MeetsInitialRequirements(length: int, vowels: int, consonants: int): string -> bool
  {
    w => w != "" && |w| == length && LetterCounter(w, Vowels) == vowels
      && LetterCounter(w, Consonants) == consonants
  }

  /** `words_filter_initial_requirements`: filters by length, then by number of vowels, then by
      number of consonants. The result is exactly the non-empty bank words meeting all three
      requirements, in bank order. */
  function WordsFilterInitialRequirements(listOfWords: seq<string>, length: int,
                                          numberOfVowels: int, numberOfConsonants: int): (r: seq<string>)
    ensures r == Filter(listOfWords, MeetsInitialRequirements(length, numberOfVowels, numberOfConsonants))
    ensures Subseq(r, listOfWords)
    ensures forall w :: w in r <==> (w in listOfWords && w != "" && |w| == length
      && LetterCounter(w, Vowels) == numberOfVowels && LetterCounter(w, Consonants) == numberOfConsonants)
  {
    var singleLength := FilterWordsByLength(listOfWords, length);
    var withVowels := FilterWordsContainingCertainLetters(singleLength, Vowels, numberOfVowels);
    var withConsonants := FilterWordsContainingCertainLetters(withVowels, Consonants, numberOfConsonants);
    var lengthAndVowels := (w: string) => HasLength(length)(w) && HasLetterCount(Vowels, numberOfVowels)(w);
    FilterFilter(listOfWords, HasLength(length), HasLetterCount(Vowels, numberOfVowels), lengthAndVowels);
    FilterFilter(listOfWords, lengthAndVowels, HasLetterCount(Consonants, numberOfConsonants),
                 MeetsInitialRequirements(length, numberOfVowels, numberOfConsonants));
    withConsonants
  }

  /** Asking for more vowels plus consonants than letters leaves no candidate. */
  lemma InitialRequirementsUnsatisfiable(listOfWords: seq<string>, length: int,
                                         numberOfVowels: int, numberOfConsonants: int)
    requires length < numberOfVowels + numberOfConsonants
    ensures WordsFilterInitialRequirements(listOfWords, length, numberOfVowels, numberOfConsonants) == []
  {
    var meets := MeetsInitialRequirements(length, numberOfVowels, numberOfConsonants);
    forall w | w in listOfWords ensures !meets(w) {
      VowelsPlusConsonantsAtMostLength(w);
    }
    FilterNone(listOfWords, meets);
  }

  /** A five-letter word spelled with exactly two vowels and three consonants. */
  ghost predicate TwoVowelsThreeConsonants(w: string)
  {
    |w| == 5 && (forall i :: 0 <= i < 5 ==> w[i] in Vowels || w[i] in Consonants) && CountIn(w, Vowels) == 2
  }

  /** `CountIn` of a five-letter word, letter by letter. */
  lemma CountInFive(a: char, b: char, c: char, d: char, e: char, letters: string)
    ensures CountIn([a, b, c, d, e], letters)
      == (if a in letters then 1 else 0) + (if b in letters then 1 else 0) + (if c in letters then 1 else 0)
       + (if d in letters then 1 else 0) + (if e in letters then 1 else 0)
  {
    assert [e][1..] == [];
    assert [d, e][1..] == [e];
    assert CountIn([d, e], letters) == (if d in letters then 1 else 0) + CountIn([e], letters);
    assert [c, d, e][1..] == [d, e];
    assert CountIn([c, d, e], letters) == (if c in letters then 1 else 0) + CountIn([d, e], letters);
    assert [b, c, d, e][1..] == [c, d, e];
    assert CountIn([b, c, d, e], letters) == (if b in letters then 1 else 0) + CountIn([c, d, e], letters);
    assert [a, b, c, d, e][1..] == [b, c, d, e];
  }

  /** A word spelled consonant, consonant, vowel, consonant, vowel. */
  lemma ConsonantConsonantVowelConsonantVowel(a: char, b: char, c: char, d: char, e: char)
    requires a in Consonants && b in Consonants && c in Vowels && d in Consonants && e in Vowels
    ensures TwoVowelsThreeConsonants([a, b, c, d, e])
  {
    VowelsNotConsonants();
    CountInFive(a, b, c, d, e, Vowels);
  }

  /** A word spelled vowel, consonant, consonant, consonant, vowel. */
  lemma VowelConsonantConsonantConsonantVowel(a: char, b: char, c: char, d: char, e: char)
    requires a in Vowels && b in Consonants && c in Consonants && d in Consonants && e in Vowels
    ensures TwoVowelsThreeConsonants([a, b, c, d, e])
  {
    VowelsNotConsonants();
    CountInFive(a, b, c, d, e, Vowels);
  }

  /** Five values that all pass the test are all kept, in order. */
  lemma FilterAllFive<T(!new)>(a: T, b: T, c: T, d: T, e: T, p: T -> bool)
    requires p(a) && p(b) && p(c) && p(d) && p(e)
    ensures Filter([a, b, c, d, e], p) == [a, b, c, d, e]
  {
    FilterAll([a, b, c, d, e], p);
  }

  /** Five words of five letters with two vowels and three consonants each all pass the
      initial requirements (5, 2, 3). */
  lemma InitialRequirementsKeepFive(w1: string, w2: string, w3: string, w4: string, w5: string)
    requires TwoVowelsThreeConsonants(w1) && TwoVowelsThreeConsonants(w2) && TwoVowelsThreeConsonants(w3)
    requires TwoVowelsThreeConsonants(w4) && TwoVowelsThreeConsonants(w5)
    ensures WordsFilterInitialRequirements([w1, w2, w3, w4, w5], 5, 2, 3) == [w1, w2, w3, w4, w5]
  {
    LetterSetsWellFormed();
    PartitionLetterCounts(w1, Vowels, Consonants);
    PartitionLetterCounts(w2, Vowels, Consonants);
    PartitionLetterCounts(w3, Vowels, Consonants);
    PartitionLetterCounts(w4, Vowels, Consonants);
    PartitionLetterCounts(w5, Vowels, Consonants);
    FilterAllFive(w1, w2, w3, w4, w5, MeetsInitialRequirements(5, 2, 3));
  }

  /** Each of the five bank words has two vowels and three consonants. */
  lemma BankWordsSpelled()
    ensures TwoVowelsThreeConsonants("apple") && TwoVowelsThreeConsonants("grape")
    ensures TwoVowelsThreeConsonants("stone") && TwoVowelsThreeConsonants("crane")
    ensures TwoVowelsThreeConsonants("plane")
  {
    VowelConsonantConsonantConsonantVowel('a', 'p', 'p', 'l', 'e');
    ConsonantConsonantVowelConsonantVowel('g', 'r', 'a', 'p', 'e');
    ConsonantConsonantVowelConsonantVowel('s', 't', 'o', 'n', 'e');
    ConsonantConsonantVowelConsonantVowel('c', 'r', 'a', 'n', 'e');
    ConsonantConsonantVowelConsonantVowel('p', 'l', 'a', 'n', 'e');
  }

  /** The bank ["apple", "grape", "stone", "crane", "plane"] asked for five letters, two vowels
      and three consonants comes back whole. */
  lemma InitialRequirementsBankExample()
    ensures var bank := ["apple", "grape", "stone", "crane", "plane"];
      WordsFilterInitialRequirements(bank, 5, 2, 3) == bank
  {
    BankWordsSpelled();
    InitialRequirementsKeepFive("apple", "grape", "stone", "crane", "plane");
  }

  // ---------------------------------------------------------------------------------------
  // Shared notions of the three feedback filters
  // ---------------------------------------------------------------------------------------

  /** The word has the letter of `lastAttempt` at every position marked right. */
  ghost predicate GreensAgree(w: string, lastAttempt: string, rightPositions: seq<bool>)
  {
    forall i :: 0 <= i < |rightPositions| && rightPositions[i] ==>
      i < |w| && i < |lastAttempt| && w[i] == lastAttempt[i]
  }

  /** `c` is confirmed absent from the target: it was played at a position marked wrong, it is
      not a misplaced letter, and it was not played at any position marked right. */
  ghost predicate ConfirmedAbsent(c: char, lastAttempt: string, misplaced: string, rightPositions: seq<bool>)
  {
    && c !in misplaced
    && (exists i :: 0 <= i < |lastAttempt| && i < |rightPositions| && !rightPositions[i] && lastAttempt[i] == c)
    && !(exists j :: 0 <= j < |lastAttempt| && j < |rightPositions| && rightPositions[j] && lastAttempt[j] == c)
  }

  /** The word contains none of the confirmed-absent letters. */
  ghost predicate FreeOfAbsentLetters(w: string, lastAttempt: string, misplaced: string, rightPositions: seq<bool>)
  {
    forall k :: 0 <= k < |w| ==> !ConfirmedAbsent(w[k], lastAttempt, misplaced, rightPositions)
  }

  /** Every misplaced letter occurs somewhere in the word. */
  predicate ContainsAllLetters(w: string, misplaced: string)
  {
    forall k :: 0 <= k < |misplaced| ==> misplaced[k] in w
  }

  /** The word puts a letter of `lastAttempt` back at a position where it was marked wrong. */
  predicate RepeatsWrongPosition(w: string, lastAttempt: string, rightPositions: seq<bool>)
  {
    exists i :: 0 <= i < |rightPositions| && i < |w| && i < |lastAttempt|
      && !rightPositions[i] && w[i] == lastAttempt[i]
  }

  // ---------------------------------------------------------------------------------------
  // Right letters in right positions
  // ---------------------------------------------------------------------------------------

  /** Keep-test of `__filter_words_with_right_letters_right_positions`. */
  function RightPositionsAgree(lastAttempt: string, rightPositions: seq<bool>): string -> bool
  {
    w => w != "" && |w| == |lastAttempt| && |rightPositions| == |lastAttempt|
      && ComparisonPositionLetterWithArrayBooleans(lastAttempt, w, rightPositions)
  }

  /** `__filter_words_with_right_letters_right_positions`: keeps, in order, the non-empty words
      that agree with the last attempt at every position marked right. */
  function FilterWordsWithRightLettersRightPositions(wordlist: seq<string>, lastAttempt: string,
                                                     rightPositions: seq<bool>): (r: seq<string>)
    requires |rightPositions| == |lastAttempt|
    requires forall w :: w in wordlist ==> |w| == |lastAttempt|
    ensures Subseq(r, wordlist)
    ensures forall w :: w in r <==> w in wordlist && w != "" && GreensAgree(w, lastAttempt, rightPositions)
    ensures forall w :: w in r ==> Count(r, w) == Count(wordlist, w)
  {
    FilterCount(wordlist, RightPositionsAgree(lastAttempt, rightPositions));
    Filter(wordlist, RightPositionsAgree(lastAttempt, rightPositions))
  }

  // ---------------------------------------------------------------------------------------
  // Words with bad letters
  // ---------------------------------------------------------------------------------------

  /** The list `right_letter`: the letters of the last attempt at positions marked right. */
  function RightLetters(lastAttempt: string, rightPositions: seq<bool>): (r: string)
    requires |rightPositions| <= |lastAttempt|
    ensures forall c :: c in r <==>
      exists j :: 0 <= j < |rightPositions| && rightPositions[j] && lastAttempt[j] == c
  {
    if rightPositions == [] then []
    else
      var rest := RightLetters(lastAttempt[1..], rightPositions[1..]);
      assert forall c :: ((exists j :: 0 <= j < |rightPositions| && rightPositions[j] && lastAttempt[j] == c)
                          <==> (rightPositions[0] && lastAttempt[0] == c) || c in rest) by {
        forall c | exists j :: 0 <= j < |rightPositions| && rightPositions[j] && lastAttempt[j] == c
          ensures (rightPositions[0] && lastAttempt[0] == c) || c in rest
        {
          var j :| 0 <= j < |rightPositions| && rightPositions[j] && lastAttempt[j] == c;
          if j > 0 {
            assert rightPositions[1..][j - 1] && lastAttempt[1..][j - 1] == c;
          }
        }
        forall c | c in rest
          ensures exists j :: 0 <= j < |rightPositions| && rightPositions[j] && lastAttempt[j] == c
        {
          var j :| 0 <= j < |rightPositions[1..]| && rightPositions[1..][j] && lastAttempt[1..][j] == c;
          assert rightPositions[j + 1] && lastAttempt[j + 1] == c;
        }
      }
      (if rightPositions[0] then [lastAttempt[0]] else []) + rest
  }

  /** The loop of `__filtering_words_with_bad_letters` that collects
      `letters_not_located_in_wordtarget`: its letters are exactly the confirmed-absent ones. */
  method LettersNotLocatedInWordTarget(lastAttempt: string, misplaced: string, rightPositions: seq<bool>)
    returns (absent: string)
    requires |rightPositions| == |lastAttempt|
    ensures |absent| <= |lastAttempt|
    ensures forall c :: c in absent <==> ConfirmedAbsent(c, lastAttempt, misplaced, rightPositions)
  {
    var rightLetter := RightLetters(lastAttempt, rightPositions);
    absent := [];
    for i := 0 to |lastAttempt|
      invariant |absent| <= i
      invariant forall c :: c in absent <==>
        c !in misplaced && c !in rightLetter
        && exists k :: 0 <= k < i && !rightPositions[k] && lastAttempt[k] == c
    {
      if lastAttempt[i] !in misplaced && !rightPositions[i] && lastAttempt[i] !in rightLetter {
        absent := absent + [lastAttempt[i]];
      }
    }
  }

  /** Keep-test of the `filter` in `__filtering_words_with_bad_letters`. */
  function WithoutLetters(absent: string): string -> bool
  {
    w => w != "" && VerifyWordNoWrongLetter(absent, w)
  }

  /** The same test stated with the confirmed-absent letters themselves. */
  ghost function FreeOfAbsent(lastAttempt: string, misplaced: string, rightPositions: seq<bool>): string -> bool
  {
    w => w != "" && FreeOfAbsentLetters(w, lastAttempt, misplaced, rightPositions)
  }

  /** What `__filtering_words_with_bad_letters` returns: the non-empty words, in order, that
      contain no confirmed-absent letter. */
  ghost function BadLettersFiltered(words: seq<string>, lastAttempt: string, misplaced: string,
                                    rightPositions: seq<bool>): (r: seq<string>)
    ensures Subseq(r, words)
    ensures forall w :: w in r <==> w in words && w != "" && FreeOfAbsentLetters(w, lastAttempt, misplaced, rightPositions)
    ensures forall w :: w in r ==> Count(r, w) == Count(words, w)
  {
    FilterCount(words, FreeOfAbsent(lastAttempt, misplaced, rightPositions));
    Filter(words, FreeOfAbsent(lastAttempt, misplaced, rightPositions))
  }

  /** `__filtering_words_with_bad_letters`. */
  method FilteringWordsWithBadLetters(listOfWords: seq<string>, lastAttempt: string, misplaced: string,
                                      rightPositions: seq<bool>) returns (r: seq<string>)
    requires |rightPositions| == |lastAttempt|
    ensures r == BadLettersFiltered(listOfWords, lastAttempt, misplaced, rightPositions)
  {
    var absent := LettersNotLocatedInWordTarget(lastAttempt, misplaced, rightPositions);
    r := Filter(listOfWords, WithoutLetters(absent));
    FilterCongruent(listOfWords, WithoutLetters(absent), FreeOfAbsent(lastAttempt, misplaced, rightPositions));
  }

  // ---------------------------------------------------------------------------------------
  // Right letters in bad positions
  // ---------------------------------------------------------------------------------------

  /** Keep-test of the first loop of `__filter_words_with_right_letters_bad_positions`. */
  function ContainsAll(misplaced: string): string -> bool
  {
    w => ContainsAllLetters(w, misplaced)
  }

  /** What `__filter_words_with_right_letters_bad_positions` returns. The words containing every
      misplaced letter are kept; if there are none the input comes back unchanged. Otherwise
      the first copy of every kept word that repeats a letter at a position marked wrong is
      removed (`list.remove` over `set(...)`), so only for a duplicate-free list are all such
      words gone. */
  ghost function MisplacedFiltered(words: seq<string>, lastAttempt: string, misplaced: string,
                                   rightPositions: seq<bool>): (r: seq<string>)
    ensures Subseq(r, words)
    ensures (forall w :: w in words ==> !ContainsAllLetters(w, misplaced)) ==> r == words
    ensures (exists w :: w in words && ContainsAllLetters(w, misplaced)) ==>
      forall w :: w in r ==> ContainsAllLetters(w, misplaced)
    ensures NoDup(words) && (exists w :: w in words && ContainsAllLetters(w, misplaced)) ==>
      forall w :: w in r <==> w in words && ContainsAllLetters(w, misplaced)
                              && !RepeatsWrongPosition(w, lastAttempt, rightPositions)
  {
    var contain := Filter(words, ContainsAll(misplaced));
    if contain == [] then
      SubseqReflexive(words);
      words
    else
      var rejected := set w | w in contain && RepeatsWrongPosition(w, lastAttempt, rightPositions);
      var r := RemoveFirsts(contain, rejected);
      RemoveFirstsSubseq(contain, rejected);
      SubseqTransitive(r, contain, words);
      SubseqMembers(r, contain);
      if NoDup(words) then
        SubseqNoDup(contain, words);
        RemoveFirstsNoDup(contain, rejected);
        r
      else
        r
  }

  /** The inner loop of the first loop of `__filter_words_with_right_letters_bad_positions`:
      scans the misplaced letters and stops at the first one missing from the word (flag `sw`). */
  method ContainsEveryLetter(word: string, misplaced: string) returns (sw: bool)
    ensures sw <==> forall k :: 0 <= k < |misplaced| ==> misplaced[k] in word
  {
    sw := true;
    var m := 0;
    while m < |misplaced|
      invariant 0 <= m <= |misplaced|
      invariant sw && forall k :: 0 <= k < m ==> misplaced[k] in word
    {
      if misplaced[m] !in word {
        sw := false;
        break;
      }
      m := m + 1;
    }
  }

  /** The first loop of `__filter_words_with_right_letters_bad_positions`: keeps the words
      containing every misplaced letter. */
  method WordsContainingRightLetters(listOfWords: seq<string>, misplaced: string) returns (contain: seq<string>)
    ensures contain == Filter(listOfWords, ContainsAll(misplaced))
  {
    contain := [];
    for n := 0 to |listOfWords|
      invariant contain == Filter(listOfWords[..n], ContainsAll(misplaced))
    {
      var word := listOfWords[n];
      var sw := ContainsEveryLetter(word, misplaced);
      FilterPrefix(listOfWords, n, ContainsAll(misplaced));
      if sw {
        contain := contain + [word];
      }
    }
    assert listOfWords[..|listOfWords|] == listOfWords;
  }

  /** The nested loops of `__filter_words_with_right_letters_bad_positions` that list
      `wordslist_with_letters_wrong_positions`: a word is listed once per position marked wrong
      where it repeats the letter of the last attempt; the values listed are exactly the words
      that do so. */
  method WordsWithLettersWrongPositions(contain: seq<string>, lastAttempt: string, rightPositions: seq<bool>)
    returns (wrong: seq<string>)
    requires |rightPositions| == |lastAttempt|
    requires forall w :: w in contain ==> |w| == |lastAttempt|
    ensures forall w :: w in wrong <==> w in contain && RepeatsWrongPosition(w, lastAttempt, rightPositions)
  {
    wrong := [];
    for n := 0 to |contain|
      invariant forall w :: w in wrong ==> w in contain && RepeatsWrongPosition(w, lastAttempt, rightPositions)
      invariant forall k :: 0 <= k < n && RepeatsWrongPosition(contain[k], lastAttempt, rightPositions) ==>
        contain[k] in wrong
    {
      var word := contain[n];
      for index := 0 to |rightPositions|
        invariant forall w :: w in wrong ==> w in contain && RepeatsWrongPosition(w, lastAttempt, rightPositions)
        invariant forall k :: 0 <= k < n && RepeatsWrongPosition(contain[k], lastAttempt, rightPositions) ==>
          contain[k] in wrong
        invariant (exists i :: 0 <= i < index && !rightPositions[i] && word[i] == lastAttempt[i]) ==> word in wrong
      {
        if !rightPositions[index] && word[index] == lastAttempt[index] {
          wrong := wrong + [word];
        }
      }
    }
  }

  /** `__filter_words_with_right_letters_bad_positions`. The last loop removes the words of
      `set(...)` one by one in an order the language does not fix; any order gives the same
      list. */
  method FilterWordsWithRightLettersBadPositions(lastAttempt: string, listOfWords: seq<string>,
                                                 misplaced: string, rightPositions: seq<bool>)
    returns (r: seq<string>)
    requires |rightPositions| == |lastAttempt|
    requires forall w :: w in listOfWords ==> |w| == |lastAttempt|
    ensures r == MisplacedFiltered(listOfWords, lastAttempt, misplaced, rightPositions)
  {
    var contain := WordsContainingRightLetters(listOfWords, misplaced);
    if |contain| == 0 {
      return listOfWords;
    }
    var wrong := WordsWithLettersWrongPositions(contain, lastAttempt, rightPositions);
    ghost var rejected := set w | w in contain && RepeatsWrongPosition(w, lastAttempt, rightPositions);
    var pending := set w | w in wrong;
    assert pending == rejected;
    r := contain;
    while pending != {}
      invariant forall w :: w in pending ==> w in r
      invariant RemoveFirsts(r, pending) == RemoveFirsts(contain, rejected)
      decreases |pending|
    {
      var w :| w in pending;
      RemoveFirstsStep(r, pending, w);
      r := RemoveFirst(r, w);
      SetRemoveOne(pending, w);
      pending := pending - {w};
      forall v | v in pending ensures v in r {
        assert Count(r, v) > 0;
      }
    }
    RemoveFirstsNone(r, {});
  }

  // ---------------------------------------------------------------------------------------
  // filter_words
  // ---------------------------------------------------------------------------------------

  /** What `filter_words` returns: right positions, then bad letters, then misplaced letters. */
  ghost function Refined(wordlist: seq<string>, lastAttempt: string, rightPositions: seq<bool>,
                         misplaced: string): (r: seq<string>)
    requires |rightPositions| == |lastAttempt|
    requires forall w :: w in wordlist ==> |w| == |lastAttempt|
    ensures Subseq(r, wordlist) && |r| <= |wordlist|
    ensures forall w :: w in r ==> w in wordlist && w != "" && GreensAgree(w, lastAttempt, rightPositions)
                                   && FreeOfAbsentLetters(w, lastAttempt, misplaced, rightPositions)
  {
    var first := FilterWordsWithRightLettersRightPositions(wordlist, lastAttempt, rightPositions);
    var second := BadLettersFiltered(first, lastAttempt, misplaced, rightPositions);
    var third := MisplacedFiltered(second, lastAttempt, misplaced, rightPositions);
    SubseqTransitive(third, second, first);
    SubseqTransitive(third, first, wordlist);
    SubseqMembers(third, wordlist);
    SubseqMembers(third, second);
    third
  }

  /** `filter_words`: the candidates consistent with one guess's feedback, in order. */
  method FilterWords(wordlist: seq<string>, lastAttempt: string, rightPositions: seq<bool>,
                     misplaced: string) returns (r: seq<string>)
    requires |rightPositions| == |lastAttempt|
    requires forall w :: w in wordlist ==> |w| == |lastAttempt|
    ensures r == Refined(wordlist, lastAttempt, rightPositions, misplaced)
    ensures Subseq(r, wordlist) && |r| <= |wordlist|
    ensures forall w :: w in r ==> w != "" && GreensAgree(w, lastAttempt, rightPositions)
                                   && FreeOfAbsentLetters(w, lastAttempt, misplaced, rightPositions)
  {
    var firstFilter := FilterWordsWithRightLettersRightPositions(wordlist, lastAttempt, rightPositions);
    var secondFilter := FilteringWordsWithBadLetters(firstFilter, lastAttempt, misplaced, rightPositions);
    r := FilterWordsWithRightLettersBadPositions(lastAttempt, secondFilter, misplaced, rightPositions);
  }

  // ---------------------------------------------------------------------------------------
  // Properties
  // ---------------------------------------------------------------------------------------

  /** On a duplicate-free list, filtering again with the same feedback changes nothing. */
  lemma RefinedIdempotent(wordlist: seq<string>, lastAttempt: string, rightPositions: seq<bool>, misplaced: string)
    requires |rightPositions| == |lastAttempt|
    requires forall w :: w in wordlist ==> |w| == |lastAttempt|
    requires NoDup(wordlist)
    ensures Refined(Refined(wordlist, lastAttempt, rightPositions, misplaced), lastAttempt, rightPositions, misplaced)
         == Refined(wordlist, lastAttempt, rightPositions, misplaced)
  {
    var first := FilterWordsWithRightLettersRightPositions(wordlist, lastAttempt, rightPositions);
    var second := BadLettersFiltered(first, lastAttempt, misplaced, rightPositions);
    var once := MisplacedFiltered(second, lastAttempt, misplaced, rightPositions);
    assert once == Refined(wordlist, lastAttempt, rightPositions, misplaced);
    SubseqMembers(once, second);
    FilterAll(once, RightPositionsAgree(lastAttempt, rightPositions));
    assert FilterWordsWithRightLettersRightPositions(once, lastAttempt, rightPositions) == once;
    FilterAll(once, FreeOfAbsent(lastAttempt, misplaced, rightPositions));
    assert BadLettersFiltered(once, lastAttempt, misplaced, rightPositions) == once;
    SubseqNoDup(first, wordlist);
    SubseqNoDup(second, first);
    if exists w :: w in second && ContainsAllLetters(w, misplaced) {
      FilterAll(once, ContainsAll(misplaced));
      if once != [] {
        var rejected := set w | w in once && RepeatsWrongPosition(w, lastAttempt, rightPositions);
        assert rejected == {};
        RemoveFirstsNone(once, rejected);
      }
    } else {
      assert once == second;
    }
  }

  /** A letter the last attempt does not contain, or a misplaced letter, is not confirmed absent. */
  lemma NotConfirmedAbsent(c: char, lastAttempt: string, misplaced: string, rightPositions: seq<bool>)
    requires c !in lastAttempt || c in misplaced
    ensures !ConfirmedAbsent(c, lastAttempt, misplaced, rightPositions)
  {
    if c !in lastAttempt {
      forall i | 0 <= i < |lastAttempt| ensures lastAttempt[i] != c {
        assert lastAttempt[i] in lastAttempt;
      }
    }
  }

  /** Feedback for guess "crane" against target "plane": `n` and `e` right, `a` misplaced. */
  lemma PlaneAgainstCrane()
    ensures GreensAgree("plane", "crane", [false, false, false, true, true])
    ensures FreeOfAbsentLetters("plane", "crane", "a", [false, false, false, true, true])
    ensures ContainsAllLetters("plane", "a")
    ensures RepeatsWrongPosition("plane", "crane", [false, false, false, true, true])
  {
    var b := [false, false, false, true, true];
    forall k | 0 <= k < 5 ensures !ConfirmedAbsent("plane"[k], "crane", "a", b) {
      if k == 0 || k == 1 {
        assert "plane"[k] !in "crane";
        NotConfirmedAbsent("plane"[k], "crane", "a", b);
      } else if k == 2 {
        NotConfirmedAbsent('a', "crane", "a", b);
      } else {
        assert b[k] && "crane"[k] == "plane"[k];
      }
    }
    assert "plane"[2] == 'a';
    assert !b[2] && "plane"[2] == "crane"[2];
  }

  /** On a duplicate-free list in which some candidate passes the first two filters and
      contains every misplaced letter, `filter_words` keeps exactly the words passing all
      four tests: right letters at right positions, no confirmed-absent letter, every
      misplaced letter present and no letter repeated at a position marked wrong. */
  lemma RefinedMembers(wordlist: seq<string>, lastAttempt: string, rightPositions: seq<bool>, misplaced: string)
    requires |rightPositions| == |lastAttempt|
    requires forall w :: w in wordlist ==> |w| == |lastAttempt|
    requires NoDup(wordlist)
    requires exists w :: (w in wordlist && w != "" && GreensAgree(w, lastAttempt, rightPositions)
      && FreeOfAbsentLetters(w, lastAttempt, misplaced, rightPositions) && ContainsAllLetters(w, misplaced))
    ensures forall w :: w in Refined(wordlist, lastAttempt, rightPositions, misplaced) <==>
      && w in wordlist && w != "" && GreensAgree(w, lastAttempt, rightPositions)
      && FreeOfAbsentLetters(w, lastAttempt, misplaced, rightPositions)
      && ContainsAllLetters(w, misplaced) && !RepeatsWrongPosition(w, lastAttempt, rightPositions)
  {
    var first := FilterWordsWithRightLettersRightPositions(wordlist, lastAttempt, rightPositions);
    var second := BadLettersFiltered(first, lastAttempt, misplaced, rightPositions);
    SubseqNoDup(first, wordlist);
    SubseqNoDup(second, first);
    var v :| v in wordlist && v != "" && GreensAgree(v, lastAttempt, rightPositions)
      && FreeOfAbsentLetters(v, lastAttempt, misplaced, rightPositions) && ContainsAllLetters(v, misplaced);
    assert v in second;
  }

  /** When some candidate passes the first two filters and contains every misplaced letter,
      and every word fails at least one of the four tests, a duplicate-free list is filtered
      down to nothing. */
  lemma RefinedEmpty(wordlist: seq<string>, lastAttempt: string, rightPositions: seq<bool>, misplaced: string)
    requires |rightPositions| == |lastAttempt|
    requires forall w :: w in wordlist ==> |w| == |lastAttempt|
    requires NoDup(wordlist)
    requires exists w :: (w in wordlist && w != "" && GreensAgree(w, lastAttempt, rightPositions)
      && FreeOfAbsentLetters(w, lastAttempt, misplaced, rightPositions) && ContainsAllLetters(w, misplaced))
    requires forall w :: w in wordlist ==>
      !(GreensAgree(w, lastAttempt, rightPositions) && FreeOfAbsentLetters(w, lastAttempt, misplaced, rightPositions)
        && ContainsAllLetters(w, misplaced) && !RepeatsWrongPosition(w, lastAttempt, rightPositions))
    ensures Refined(wordlist, lastAttempt, rightPositions, misplaced) == []
  {
    RefinedMembers(wordlist, lastAttempt, rightPositions, misplaced);
    NoMembersEmpty(Refined(wordlist, lastAttempt, rightPositions, misplaced));
  }

  /** Duplicate words break idempotence: if a word passes the first two filters and holds every
      misplaced letter but repeats a letter at a position marked wrong, one copy of it survives
      a list holding two copies, and is removed by the next round. */
  lemma {:induction false} RefinedNotIdempotentWithDuplicates(w: string, lastAttempt: string, rightPositions: seq<bool>,
                                                              misplaced: string)
    requires |rightPositions| == |lastAttempt| == |w|
    requires w != "" && GreensAgree(w, lastAttempt, rightPositions)
    requires FreeOfAbsentLetters(w, lastAttempt, misplaced, rightPositions)
    requires ContainsAllLetters(w, misplaced) && RepeatsWrongPosition(w, lastAttempt, rightPositions)
    ensures Refined([w, w], lastAttempt, rightPositions, misplaced) == [w]
    ensures Refined([w], lastAttempt, rightPositions, misplaced) == []
  {
    var twice := [w, w];
    FilterAll(twice, RightPositionsAgree(lastAttempt, rightPositions));
    FilterAll(twice, FreeOfAbsent(lastAttempt, misplaced, rightPositions));
    FilterAll(twice, ContainsAll(misplaced));
    assert (set v | v in twice && RepeatsWrongPosition(v, lastAttempt, rightPositions)) == {w};
    assert twice[1..] == [w] && [w][1..] == [] && {w} - {w} == {};
    assert RemoveFirsts(twice, {w}) == RemoveFirsts([w], {}) == [w];
    var single := [w];
    FilterAll(single, RightPositionsAgree(lastAttempt, rightPositions));
    FilterAll(single, FreeOfAbsent(lastAttempt, misplaced, rightPositions));
    FilterAll(single, ContainsAll(misplaced));
    assert (set v | v in single && RepeatsWrongPosition(v, lastAttempt, rightPositions)) == {w};
    assert RemoveFirsts(single, {w}) == [];
  }

  /** ["plane", "plane"] after guess "crane" against target "plane" becomes ["plane"], and
      ["plane"] becomes []. */
  lemma DuplicatePlaneExample()
    ensures Refined(["plane", "plane"], "crane", [false, false, false, true, true], "a") == ["plane"]
    ensures Refined(["plane"], "crane", [false, false, false, true, true], "a") == []
  {
    PlaneAgainstCrane();
    RefinedNotIdempotentWithDuplicates("plane", "crane", [false, false, false, true, true], "a");
  }

  /** Why the other words of the five-word bank fail the feedback of guess "crane". */
  lemma OthersAgainstCrane()
    ensures !GreensAgree("apple", "crane", [false, false, false, true, true])
    ensures !GreensAgree("grape", "crane", [false, false, false, true, true])
    ensures !ContainsAllLetters("stone", "a")
    ensures !FreeOfAbsentLetters("crane", "crane", "a", [false, false, false, true, true])
  {
    var b := [false, false, false, true, true];
    assert b[3] && "apple"[3] != "crane"[3];
    assert b[3] && "grape"[3] != "crane"[3];
    assert "a"[0] !in "stone" by {
      forall i | 0 <= i < 5 ensures "stone"[i] != 'a' { }
    }
    assert !b[0] && "crane"[0] == 'c';
    assert ConfirmedAbsent("crane"[0], "crane", "a", b);
  }

  /** Guess "crane" against target "plane": positions 3 and 4 right, `a` misplaced. Over
      ["apple", "grape", "stone", "crane", "plane"] nothing survives: "plane" is rejected for
      repeating `a` at position 2, where it was marked wrong. */
  lemma RefinedCraneExample()
    ensures Refined(["apple", "grape", "stone", "crane", "plane"], "crane",
                    [false, false, false, true, true], "a") == []
  {
    var words := ["apple", "grape", "stone", "crane", "plane"];
    var b := [false, false, false, true, true];
    assert NoDup(words);
    PlaneAgainstCrane();
    OthersAgainstCrane();
    assert "plane" in words;
    forall w | w in words
      ensures !(GreensAgree(w, "crane", b) && FreeOfAbsentLetters(w, "crane", "a", b)
                && ContainsAllLetters(w, "a") && !RepeatsWrongPosition(w, "crane", b))
    {
    }
    RefinedEmpty(words, "crane", b, "a");
  }

  /** With no misplaced letters every word passes the presence test, so on a duplicate-free
      list the misplaced-letter filter only removes words repeating a letter at a position
      marked wrong. */
  lemma EmptyMisplacedOnlyChecksPositions(words: seq<string>, lastAttempt: string, rightPositions: seq<bool>)
    requires NoDup(words)
    ensures forall w :: w in MisplacedFiltered(words, lastAttempt, "", rightPositions) <==>
      w in words && !RepeatsWrongPosition(w, lastAttempt, rightPositions)
  {
    if words != [] {
      assert ContainsAllLetters(words[0], "");
      assert words[0] in words;
    }
  }

}
