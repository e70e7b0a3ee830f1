/** The helpers of class `AuxiliaryFunctions` (main.py): letter counting, the length and
    letter-count filters, the positional comparison against the boolean feedback and the
    absent-letter test. All of them are expressions over strings and lists, so they are
    functions here. A word is a `string`; a word list is a `seq<string>`.

    Every `filter(lambda word: word if cond else None, words)` of the source keeps a word by
    its truthiness, so an empty word is never kept whatever `cond` says: the keep-predicates
    below all start with `w != ""`. */
module AuxiliaryFunctions {
  import opened Seqs

  /** The vowels of `words_filter_initial_requirements`. */
  const Vowels: string := "aeiou"

  /** The consonants of `words_filter_initial_requirements` (Spanish alphabet, with `ñ`). */
  const Consonants: string := "bcdfghjklmnñpqrstvwxyz"

  /** `letter_counter(word, set_of_letters)`: the sum, over the characters of `letters`, of how
      often each occurs in `word` (`sum(map(word.count, set_of_letters))`). */
  function LetterCounter(word: string, letters: string): (n: nat)
    ensures n == 0 <==> forall k :: 0 <= k < |letters| ==> letters[k] !in word
  {
    if letters == [] then 0 else Count(word, letters[0]) + LetterCounter(word, letters[1..])
  }

  /** `letter_counter` of a single letter is that letter's count. */
  lemma LetterCounterSingle(word: string, c: char)
    ensures LetterCounter(word, [c]) == Count(word, c)
  {
    assert [c][1..] == [];
  }

  /** The number of positions of `word` whose character is one of `letters`. */
  function CountIn(word: string, letters: string): (n: nat)
    ensures n <= |word|
    ensures n == 0 <==> forall i :: 0 <= i < |word| ==> word[i] !in letters
  {
    if word == [] then 0 else (if word[0] in letters then 1 else 0) + CountIn(word[1..], letters)
  }

  lemma {:induction false} CountInCons(word: string, c: char, rest: string)
    requires c !in rest
    ensures CountIn(word, [c] + rest) == Count(word, c) + CountIn(word, rest)
  {
    if word != [] {
      CountInCons(word[1..], c, rest);
    }
  }

  /** With no letter listed twice, `letter_counter` counts the positions of `word` that hold
      one of the letters. */
  lemma {:induction false} LetterCounterCountsPositions(word: string, letters: string)
    requires NoDup(letters)
    ensures LetterCounter(word, letters) == CountIn(word, letters)
  {
    if letters != [] {
      assert NoDup(letters[1..]);
      assert letters[0] !in letters[1..] by {
        forall j | 0 <= j < |letters[1..]| ensures letters[1..][j] != letters[0] {
          assert letters[1..][j] == letters[j + 1];
        }
      }
      LetterCounterCountsPositions(word, letters[1..]);
      CountInCons(word, letters[0], letters[1..]);
      assert [letters[0]] + letters[1..] == letters;
    }
  }

  /** Positions holding a letter of `a` and positions holding a letter of a disjoint `b` are
      different positions, so the two counts add up to at most the length of the word. */
  lemma {:induction false} CountInDisjoint(word: string, a: string, b: string)
    requires forall c :: c in a ==> c !in b
    ensures CountIn(word, a) + CountIn(word, b) <= |word|
  {
    if word != [] {
      CountInDisjoint(word[1..], a, b);
    }
  }

  /** When every character of `word` is a letter of `a` or of a disjoint `b`, the two counts
      add up to the length of the word. */
  lemma {:induction false} CountInPartition(word: string, a: string, b: string)
    requires forall c :: c in a ==> c !in b
    requires forall i :: 0 <= i < |word| ==> word[i] in a || word[i] in b
    ensures CountIn(word, a) + CountIn(word, b) == |word|
  {
    if word != [] {
      assert word[0] in a || word[0] in b;
      CountInPartition(word[1..], a, b);
    }
  }

  /** Position of a letter in Spanish alphabetical order, `ñ` coming right after `n`. */
  function AlphabeticalRank(c: char): int
  {
    if c == 'ñ' then 2 * ('n' as int) + 1 else 2 * (c as int)
  }

  lemma {:induction false} RankSortedNoDup(s: string)
    requires forall i :: 0 <= i < |s| - 1 ==> AlphabeticalRank(s[i]) < AlphabeticalRank(s[i + 1])
    ensures forall i, j :: 0 <= i < j < |s| ==> AlphabeticalRank(s[i]) < AlphabeticalRank(s[j])
    ensures NoDup(s)
  {
    if |s| > 1 {
      RankSortedNoDup(s[1..]);
      forall i, j | 0 <= i < j < |s| ensures AlphabeticalRank(s[i]) < AlphabeticalRank(s[j]) {
        if i > 0 {
          assert s[i] == s[1..][i - 1] && s[j] == s[1..][j - 1];
        } else if j > 1 {
          assert s[1] == s[1..][0] && s[j] == s[1..][j - 1];
        }
      }
    }
  }

  lemma VowelsNoDup()
    ensures NoDup(Vowels)
  {
    assert forall i :: 0 <= i < |Vowels| - 1 ==> AlphabeticalRank(Vowels[i]) < AlphabeticalRank(Vowels[i + 1]);
    RankSortedNoDup(Vowels);
  }

  lemma ConsonantsNoDup()
    ensures NoDup(Consonants)
  {
    assert forall i :: 0 <= i < |Consonants| - 1 ==> AlphabeticalRank(Consonants[i]) < AlphabeticalRank(Consonants[i + 1]);
    RankSortedNoDup(Consonants);
  }

  lemma VowelsNotConsonants()
    ensures forall c :: c in Vowels ==> c !in Consonants
  {
  }

  /** Two lists of letters, neither listing a letter twice, with no letter in both. */
  ghost predicate DisjointLetterLists(a: string, b: string)
  {
    NoDup(a) && NoDup(b) && forall c :: c in a ==> c !in b
  }

  /** No letter is listed twice among the vowels or among the consonants, and none is both. */
  lemma LetterSetsWellFormed()
    ensures DisjointLetterLists(Vowels, Consonants)
  {
    VowelsNoDup();
    ConsonantsNoDup();
    VowelsNotConsonants();
  }

  /** The vowels and consonants of a word, counted position by position. */
  lemma LetterCountsByPosition(word: string)
    ensures LetterCounter(word, Vowels) == CountIn(word, Vowels)
    ensures LetterCounter(word, Consonants) == CountIn(word, Consonants)
  {
    VowelsNoDup();
    ConsonantsNoDup();
    LetterCounterCountsPositions(word, Vowels);
    LetterCounterCountsPositions(word, Consonants);
  }

  /** Counting two disjoint lists of distinct letters never gives more than the word's length. */
  lemma DisjointLetterCountsAtMostLength(word: string, a: string, b: string)
    requires DisjointLetterLists(a, b)
    ensures LetterCounter(word, a) + LetterCounter(word, b) <= |word|
  {
    LetterCounterCountsPositions(word, a);
    LetterCounterCountsPositions(word, b);
    CountInDisjoint(word, a, b);
  }

  /** A word never has more vowels plus consonants than letters. */
  lemma VowelsPlusConsonantsAtMostLength(word: string)
    ensures LetterCounter(word, Vowels) + LetterCounter(word, Consonants) <= |word|
  {
    LetterSetsWellFormed();
    DisjointLetterCountsAtMostLength(word, Vowels, Consonants);
  }

  /** A word spelled only with letters of two disjoint lists of distinct letters: `letter_counter`
      of the first list counts its positions holding one of those letters, and the two
      `letter_counter`s add up to the length of the word. */
  lemma PartitionLetterCounts(word: string, a: string, b: string)
    requires DisjointLetterLists(a, b)
    requires forall i :: 0 <= i < |word| ==> word[i] in a || word[i] in b
    ensures LetterCounter(word, a) == CountIn(word, a)
    ensures LetterCounter(word, a) + LetterCounter(word, b) == |word|
  {
    LetterCounterCountsPositions(word, a);
    LetterCounterCountsPositions(word, b);
    CountInPartition(word, a, b);
  }

  /** Keep-test of `filter_words_by_length`. */
  function HasLength(length: int): string -> bool
  {
    w => w != "" && |w| == length
  }

  /** `filter_words_by_length`: the non-empty words of the given length, in order. */
  function FilterWordsByLength(words: seq<string>, length: int): (r: seq<string>)
    ensures Subseq(r, words)
    ensures forall w :: w in r <==> w in words && w != "" && |w| == length
    ensures forall w :: w in r ==> Count(r, w) == Count(words, w)
  {
    FilterCount(words, HasLength(length));
    Filter(words, HasLength(length))
  }

  /** Keep-test of `filter_words_containing_certain_letters`. */
  function HasLetterCount(letters: string, k: int): string -> bool
  {
    w => w != "" && LetterCounter(w, letters) == k
  }

  /** `filter_words_containing_certain_letters`: the non-empty words in which the letters of
      `letters` occur exactly `k` times in all, in order. */
  function FilterWordsContainingCertainLetters(words: seq<string>, letters: string, k: int): (r: seq<string>)
    ensures Subseq(r, words)
    ensures forall w :: w in r <==> w in words && w != "" && LetterCounter(w, letters) == k
    ensures forall w :: w in r ==> Count(r, w) == Count(words, w)
  {
    FilterCount(words, HasLetterCount(letters, k));
    Filter(words, HasLetterCount(letters, k))
  }

  /** The number of positions `i < |word|` at which `boolean_list[i]` holds and `word` agrees
      with `last_attempt`: the sum of the mapped list in
      `comparison_position_letter_with_array_booleans`. */
  function AgreeingGreens(lastAttempt: string, word: string, booleans: seq<bool>): nat
    requires |word| <= |lastAttempt| && |word| <= |booleans|
  {
    if word == [] then 0
    else (if lastAttempt[0] == word[0] && booleans[0] then 1 else 0)
         + AgreeingGreens(lastAttempt[1..], word[1..], booleans[1..])
  }

  lemma {:induction false} AgreeingGreensBound(lastAttempt: string, word: string, booleans: seq<bool>)
    requires |word| == |lastAttempt| == |booleans|
    ensures AgreeingGreens(lastAttempt, word, booleans) <= Count(booleans, true)
    ensures AgreeingGreens(lastAttempt, word, booleans) == Count(booleans, true)
        <==> forall i :: 0 <= i < |word| && booleans[i] ==> word[i] == lastAttempt[i]
  {
    if word != [] {
      AgreeingGreensBound(lastAttempt[1..], word[1..], booleans[1..]);
      if forall i :: 0 <= i < |word| && booleans[i] ==> word[i] == lastAttempt[i] {
        forall i | 0 <= i < |word[1..]| && booleans[1..][i] ensures word[1..][i] == lastAttempt[1..][i] {
          assert booleans[i + 1];
        }
      }
      if forall i :: 0 <= i < |word[1..]| && booleans[1..][i] ==> word[1..][i] == lastAttempt[1..][i] {
        if !booleans[0] || word[0] == lastAttempt[0] {
          forall i | 0 <= i < |word| && booleans[i] ensures word[i] == lastAttempt[i] {
            if i > 0 {
              assert booleans[1..][i - 1] == booleans[i];
            }
          }
        }
      }
    }
  }

  /** `comparison_position_letter_with_array_booleans`: compares the number of agreeing
      positions marked true with the number of true entries (`sum(boolean_list)`); this holds
      exactly when the word agrees with the last attempt at every position marked true. */
  function ComparisonPositionLetterWithArrayBooleans(lastAttempt: string, word: string, booleans: seq<bool>): (r: bool)
    requires |word| == |lastAttempt| == |booleans|
    ensures r <==> forall i :: 0 <= i < |word| && booleans[i] ==> word[i] == lastAttempt[i]
  {
    AgreeingGreensBound(lastAttempt, word, booleans);
    AgreeingGreens(lastAttempt, word, booleans) == Count(booleans, true)
  }

  /** `verify_word_no_wrong_letter`: the number of characters of `word` found in `letters` is
      zero exactly when no character of `word` is one of `letters`. */
  function VerifyWordNoWrongLetter(letters: string, word: string): (r: bool)
    ensures r <==> forall i :: 0 <= i < |word| ==> word[i] !in letters
  {
    CountIn(word, letters) == 0
  }
}
