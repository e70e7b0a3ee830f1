# Wordle solver core in Dafny

This project models the word-selection engine of a Wordle solver written in Python
(`main.py`). Candidates are Spanish words over the alphabet `aeioubcdfghjklmnñpqrstvwxyz`.
The engine has three parts:

- **Initial filtering** (`WordleGame.words_filter_initial_requirements`) keeps the bank words
  with a given length, number of vowels and number of consonants.
- **Feedback filtering** (`WordleGame.filter_words`) narrows the candidates after one guess. The
  feedback is the word played, one boolean per position (true where the letter is right) and the
  letters known to be misplaced. Three filters run in turn:
  - right letters at right positions;
  - no confirmed-absent letters;
  - misplaced letters present but not repeated where they were marked wrong.
- **Guess selection** (`WordleGame.select_word`) chooses the next guess:
  - it keeps the candidates with the most different letters;
  - then, from left to right, it keeps those carrying the most frequent letter at each position,
    breaking ties by alphabet order;
  - the first candidate left is the guess.

The alphabet of `select_word` is its local string `alpabhet` (main.py:250-251). The letter choice
and the narrowing take it as a parameter, and `SelectWord` passes the constant `Alphabet`. A guess
is guaranteed for a non-empty list only when the words with the most different letters spell the
narrowed positions with letters of that alphabet. Otherwise a position can pick a letter no
candidate has, and every candidate is removed.

The helpers of class `AuxiliaryFunctions` are pure and are modelled as functions. The loops of
the `WordleGame` methods are modelled as methods with loop invariants. Most methods are proved
equal to a specification function, and the properties are proved about those functions. Two
loops only collect values that the caller then tests with `in` or turns into a `set(...)`:
`LettersNotLocatedInWordTarget` and `WordsWithLettersWrongPositions`. These two are
characterised by exactly which values they collect.

Files and modules:

- `seqs.dfy` (`Seqs`): the Python list idioms used by the engine.
  - `Count` stands for `str.count` and `list.count`.
  - `Filter` stands for `filter`.
  - `RemoveFirst` stands for `list.remove`.
  - `RemoveFirsts` stands for removing every value of a `set(...)`.
  - `Subseq` states that order is kept; `NoDup` states that a list has no duplicates.
- `auxiliary.dfy` (`AuxiliaryFunctions`): class `AuxiliaryFunctions`.
- `candidate_filter.dfy` (`CandidateFilter`): `words_filter_initial_requirements`, `filter_words`
  and its three private filters.
- `guess_selector.dfy` (`GuessSelector`): `__Selection_word_with_highest_number_different_letters`
  and `select_word`.

Every `filter(lambda w: w if cond else None, ...)` of the source keeps a word by its truthiness,
so the empty word is never kept. The keep-tests of the model include `w != ""` for that reason.

## Model

| member | source | states |
|---|---|---|
| Seqs.IndexOf | main.py:269-270 | the position found holds the value and no earlier position does: it is the first occurrence, the one `list.remove` drops |
| Seqs.RemoveFirst | main.py:269-270 | `list.remove` of a present value: the result is the list with its first occurrence of the value cut out and everything else in order, so it is one shorter, that value's count drops by one and every other count is unchanged |
| Seqs.RemoveFirstsPrefix | main.py:166-167 | removing each value of a set once, position by position: element `i` is dropped exactly when it is in the set and is the first copy of its value, and every other element is kept in order |
| Seqs.RemoveFirstsCount | main.py:166-167 | removing each value of a set once: the count of each set value present in the list drops by one, and all other counts are unchanged |
| Seqs.RemoveFirstsSubseq | main.py:166-167 | removing each value of a set once keeps the order of what stays |
| Seqs.RemoveFirstsStep | main.py:166-167 | removing one value of the set first and then the rest gives the same list as removing them all, so the result does not depend on the iteration order of the set |
| Seqs.RemoveFirstsNoDup | main.py:166-167 | on a list without duplicates, removing first copies keeps exactly the elements outside the set |
| Seqs.DropRejectedStep | main.py:269-270 | in the middle of the removal loop, the next listed word is still present, and removing it drops the next rejected element |
| Seqs.DropRejectedAll | main.py:265-270 | after every listed word is removed, what is left is exactly the kept elements, in order |
| AuxiliaryFunctions.LetterCounter | main.py:318-328 | `sum(map(word.count, set_of_letters))` is zero exactly when none of the listed letters occurs in the word |
| AuxiliaryFunctions.LetterCounterCountsPositions | main.py:318-328 | when no letter is listed twice, `letter_counter` equals the number of positions of the word holding one of the letters |
| AuxiliaryFunctions.LetterCounterSingle | main.py:318-328 | `letter_counter` of a one-letter string is that letter's number of occurrences, as `select_word` uses it |
| AuxiliaryFunctions.LetterSetsWellFormed | main.py:42-50 | the vowel and consonant strings have no repeated letter and share no letter |
| AuxiliaryFunctions.LetterCountsByPosition | main.py:42-54 | the vowel count and the consonant count of a word are the numbers of its positions holding a vowel and a consonant |
| AuxiliaryFunctions.VowelsPlusConsonantsAtMostLength | main.py:42-54 | a word's vowel count plus its consonant count never exceeds its length |
| AuxiliaryFunctions.PartitionLetterCounts | main.py:42-54 | for a word spelled only with letters of two disjoint, duplicate-free letter lists, the first count is its number of positions holding a letter of the first list, and the two counts add up to its length |
| AuxiliaryFunctions.FilterWordsByLength | main.py:303-316 | the result keeps order, holds exactly the non-empty input words of the given length, and keeps every copy of each |
| AuxiliaryFunctions.FilterWordsContainingCertainLetters | main.py:280-301 | the result keeps order, holds exactly the non-empty input words whose `letter_counter` equals the requested number, and keeps every copy of each |
| AuxiliaryFunctions.AgreeingGreensBound | main.py:341-350 | the count of agreeing positions marked true is at most the count of trues; the two are equal exactly when the word agrees at every position marked true |
| AuxiliaryFunctions.ComparisonPositionLetterWithArrayBooleans | main.py:330-350 | true exactly when the word has the last attempt's letter at every position marked true |
| AuxiliaryFunctions.VerifyWordNoWrongLetter | main.py:352-373 | true exactly when no character of the word is one of the listed letters |
| CandidateFilter.WordsFilterInitialRequirements | main.py:22-55 | the three filters in a row equal one filter by the conjunction: exactly the non-empty bank words with the requested length, vowel count and consonant count, in bank order |
| CandidateFilter.InitialRequirementsUnsatisfiable | main.py:22-55 | asking for more vowels plus consonants than the length leaves no word |
| CandidateFilter.InitialRequirementsKeepFive | main.py:22-55 | five words of five letters, each spelled with two vowels and three consonants, all pass the requirements (5, 2, 3), in order |
| CandidateFilter.InitialRequirementsBankExample | main.py:22-55 | the bank ["apple", "grape", "stone", "crane", "plane"] asked for five letters, two vowels and three consonants comes back whole |
| CandidateFilter.FilterWordsWithRightLettersRightPositions | main.py:94-118 | the result keeps order, holds exactly the non-empty words that agree with the last attempt at every position marked right, and keeps every copy of each |
| CandidateFilter.RightLetters | main.py:191-195 | `right_letter` holds exactly the letters the last attempt has at positions marked right |
| CandidateFilter.LettersNotLocatedInWordTarget | main.py:190-202 | the collected letters are exactly those played at a wrong position that are neither misplaced nor played at a right position |
| CandidateFilter.BadLettersFiltered | main.py:170-212 | the result keeps order, holds exactly the non-empty words containing no confirmed-absent letter, and keeps every copy of each |
| CandidateFilter.FilteringWordsWithBadLetters | main.py:170-212 | the method returns exactly `BadLettersFiltered` |
| CandidateFilter.MisplacedFiltered | main.py:120-168 | keeps order; if no word holds every misplaced letter the input comes back unchanged; otherwise every word left holds them all, and on a duplicate-free list the words left are exactly those holding them all without repeating a letter at a position marked wrong |
| CandidateFilter.ContainsEveryLetter | main.py:143-147 | the inner loop with flag `sw` and `break` leaves `sw` true exactly when the word contains every misplaced letter |
| CandidateFilter.WordsContainingRightLetters | main.py:141-149 | the loop with flag `sw` and `break` keeps, in order, exactly the words containing every misplaced letter |
| CandidateFilter.WordsWithLettersWrongPositions | main.py:154-163 | the listed words are exactly those that repeat a letter of the last attempt at a position marked wrong |
| CandidateFilter.FilterWordsWithRightLettersBadPositions | main.py:120-168 | the method returns `MisplacedFiltered` whatever order the removal loop takes the set's words in |
| CandidateFilter.Refined | main.py:57-92 | the three filters in sequence keep order, never add a word, and every word kept is non-empty, agrees at the right positions and has no confirmed-absent letter |
| CandidateFilter.FilterWords | main.py:57-92 | the method returns `Refined`, with the same guarantees |
| CandidateFilter.RefinedIdempotent | main.py:57-92 | on a duplicate-free list, filtering again with the same feedback changes nothing |
| CandidateFilter.RefinedMembers | main.py:57-92 | on a duplicate-free list where some word passes the first two filters and holds every misplaced letter, a word is kept exactly when it passes all four tests |
| CandidateFilter.RefinedEmpty | main.py:57-92 | under the same conditions, if every word fails one of the four tests, nothing is kept |
| CandidateFilter.RefinedNotIdempotentWithDuplicates | main.py:166-167 | with two copies of a word that repeats a letter at a wrong position, one copy survives and the next round removes it, so idempotence needs a duplicate-free list |
| CandidateFilter.DuplicatePlaneExample | main.py:166-167 | ["plane", "plane"] after guess "crane" (positions 3 and 4 right, `a` misplaced) becomes ["plane"], and a second round gives [] |
| CandidateFilter.NotConfirmedAbsent | main.py:196-202 | a letter absent from the last attempt, or listed as misplaced, is never treated as absent |
| CandidateFilter.RefinedCraneExample | main.py:57-92 | the bank ["apple", "grape", "stone", "crane", "plane"] after that feedback leaves no candidate |
| CandidateFilter.EmptyMisplacedOnlyChecksPositions | main.py:139-168 | with no misplaced letters, a duplicate-free list loses exactly the words repeating a letter at a wrong position |
| GuessSelector.DistinctCount | main.py:227 | `len(set(list(word)))` never exceeds the word's length |
| GuessSelector.DistinctCountAllDifferent | main.py:227 | a word has as many different letters as letters exactly when no letter repeats |
| GuessSelector.MaxDistinct | main.py:225-233 | the running maximum `large` is -1 on the empty list; otherwise it bounds every word's distinct-letter count and some word attains it |
| GuessSelector.MostDistinct | main.py:214-234 | keeps order; holds exactly the words whose distinct-letter count no word exceeds, with every copy of each; non-empty for a non-empty list |
| GuessSelector.SelectionWordWithHighestNumberDifferentLetters | main.py:214-234 | the one-pass loop that empties its list when a word beats `large` returns exactly `MostDistinct` |
| GuessSelector.MostDistinctIdempotent | main.py:214-234 | selecting the words with the most different letters twice is the same as once |
| GuessSelector.ColumnCount | main.py:256-261 | a letter occurs in `letter_word` once per candidate carrying it at the position, so the count `select_word` compares for a letter is the number of candidates that letter keeps |
| GuessSelector.LetterScanFirstMax | main.py:260-264 | a scan that starts with the first most frequent of the letters seen so far ends on the first most frequent letter of the whole alphabet |
| GuessSelector.BestLetter | main.py:255-264 | the letter chosen for a column is a letter of the alphabet |
| GuessSelector.BestLetterIsMostFrequent | main.py:249-264 | the chosen letter is in the alphabet, no alphabet letter is more frequent in the column, and every earlier alphabet letter is strictly less frequent |
| GuessSelector.ChooseLetter | main.py:255-264 | the loop starting at `large = -1` with strict `<` returns `BestLetter` as a one-letter string |
| GuessSelector.KeepAtMembers | main.py:265-270 | the words kept are exactly the input words carrying the given letter at the position |
| GuessSelector.StepMembers | main.py:255-270 | one pass keeps exactly the candidates carrying the chosen letter at the position |
| GuessSelector.StepSubseq | main.py:265-270 | one pass keeps the order of the candidates |
| GuessSelector.StepNonEmpty | main.py:255-270 | one pass over a non-empty list whose letters at the position are alphabet letters keeps some candidate |
| GuessSelector.NarrowedMembers | main.py:254-270 | narrowing keeps only words of its input |
| GuessSelector.NarrowedSubseq | main.py:254-270 | narrowing keeps the order of the candidates |
| GuessSelector.StepAgree | main.py:255-270 | after the pass at a position, all candidates left agree at that position and at every earlier one |
| GuessSelector.NarrowAgree | main.py:254-270 | all candidates left agree at every position narrowed on |
| GuessSelector.NarrowNonEmpty | main.py:254-270 | if the candidates are non-empty and spell the narrowed positions with alphabet letters, some candidate is left |
| GuessSelector.NarrowAt | main.py:255-270 | one pass of the outer loop, including the `list.remove` loop, keeps exactly the candidates carrying the chosen letter at the position, in order |
| GuessSelector.NarrowPositions | main.py:254-270 | the outer `for index in range(length_target_word)` loop performs the passes for positions 0 to `length_target_word - 1` in turn |
| GuessSelector.NarrowLeavesOneWord | main.py:254-270 | when every word has the narrowed length, all candidates left are copies of one word |
| GuessSelector.SelectionLeft | main.py:236-271 | the candidates left come from the list and have the most different letters; none are left from an empty list; some are left from a non-empty list spelled in the alphabet |
| GuessSelector.SelectSpec | main.py:236-271 | a returned word is in the list and no word has more different letters; an empty list gives `None`; a non-empty list spelled in the alphabet gives a word |
| GuessSelector.SelectWord | main.py:236-271 | the method returns `SelectSpec`: a word of the list with the most different letters, and `None` for an empty list |
| GuessSelector.SelectedIsOnlyWordLeft | main.py:254-271 | when the words with the most different letters all have the target length, every candidate left is a copy of the returned word |
| GuessSelector.BestLetterTieExample | main.py:249-264 | for the column "ea" the letter `a` is chosen: ties go to the earlier letter of the alphabet, not to the earlier candidate |
| GuessSelector.MostDistinctOfTie | main.py:214-234 | two words with as many different letters each are both kept, in order |
| GuessSelector.BestLetterOfTwo | main.py:255-264 | for a two-letter column whose first letter occurs in the alphabet before any occurrence of the second, the first letter is chosen |
| GuessSelector.NarrowTwoWords | main.py:254-270 | two words whose first letters differ, the first word's letter being chosen there and all its letters in the alphabet: only the first word is left |
| GuessSelector.SelectTwoWords | main.py:236-271 | for two such words with as many different letters each, the first word is the guess |
| GuessSelector.SelectPlaneSlateExample | main.py:236-271 | from ["plane", "slate"] with length 5 the guess is "plane": both have five different letters, and `p` comes before `s` in the alphabet |

## Left out

- Classes `Play`, `WordBankManagement` and `Database`, and the `__main__` block. They do HTTP requests, JSON, SQL and timing, and none of that is part of this model.
- `WordleGame` is not a class in the model. It only stores the word bank it was built with and never changes it, so the bank is the parameter `listOfWords` of `WordsFilterInitialRequirements`.
- Lists are values. The source mutates `wordlist_contain_right_letter` and `wordlist_highest_number_different_letters`, and in one branch it returns its input list itself (main.py:150-151). The model returns new sequences, so aliasing between caller and callee is not captured.
- SelectWord: an empty candidate list at the end, where the source raises IndexError (main.py:271), is modelled as `None`.
- SelectWord: requires every word with the most different letters to be at least `lengthTargetWord` long. The source only needs this of the words still present at each index. A shorter word would make it raise IndexError, which is not modelled.
- FilterWordsWithRightLettersRightPositions: requires every word and the boolean list to have the length of the last attempt. The source also compares a shorter word over its own positions. The callers filter by length first.
- FilteringWordsWithBadLetters: requires the boolean list to have the length of the last attempt.
- FilterWords: requires the same equal lengths as its three filters.
- Misplaced letters are modelled as characters. The source accepts any strings there, and for a longer string `in` would be a substring test.
- ChooseLetter: the source's initial choice `""` is kept, and the letter is compared as a one-character string. The starting count of -1 means the initial choice is always replaced.
- Lengths given as negative integers behave as in the source: `range` of a negative number is empty, and no word has a negative length.
