/** Guess selection of `WordleGame` (main.py): `__Selection_word_with_highest_number_different_letters`
    and `select_word`.

    `select_word` first keeps the candidates with the most different letters. Then, position by
    position from the left, it picks the most frequent letter of the remaining candidates at
    that position (the first such letter in the order of `Alphabet`) and drops every candidate
    with another letter there. The first candidate left is the guess. */
module GuessSelector {
  import opened Seqs
  import opened AuxiliaryFunctions

  datatype Option<T> = None | Some(value: T)

  /** The alphabet of `select_word`, in the order used to break ties between letters. */
  const Alphabet: string := "aeioubcdfghjklmnñpqrstvwxyz"

  // ---------------------------------------------------------------------------------------
  // Words with the highest number of different letters
  // ---------------------------------------------------------------------------------------

  /** `len(set(list(word)))`: the number of different letters of a word. */
  function DistinctCount(w: string): (n: nat)
    ensures n <= |w|
  {
    DistinctLetters(w);
    |set c | c in w|
  }

  /** A word has as many different letters as letters exactly when no letter repeats. */
  lemma DistinctCountAllDifferent(w: string)
    ensures DistinctCount(w) == |w| <==> NoDup(w)
  {
    DistinctLetters(w);
  }

  /** A word has at most as many different letters as letters, and exactly as many when no
      letter repeats. */
  lemma {:induction false} DistinctLetters(w: string)
    ensures |set c | c in w| <= |w|
    ensures |set c | c in w| == |w| <==> NoDup(w)
  {
    if w != [] {
      var t := w[1..];
      DistinctLetters(t);
      NoDupCons(w);
      assert (set c | c in w) == (set c | c in t) + {w[0]} by {
        assert w == [w[0]] + t;
      }
    }
  }

  /** The largest number of different letters over the list, -1 for the empty list (the start
      value `large = -1` of the loop). */
  function MaxDistinct(xs: seq<string>): (m: int)
    ensures xs == [] ==> m == -1
    ensures forall w :: w in xs ==> DistinctCount(w) <= m
    ensures xs != [] ==> exists w :: w in xs && DistinctCount(w) == m
  {
    if xs == [] then -1
    else
      var init := xs[..|xs| - 1];
      var last := xs[|xs| - 1];
      assert xs == init + [last];
      var p := MaxDistinct(init);
      var t := DistinctCount(last);
      if p < t then t else p
  }

  /** The running maximum after one more word of a prefix. */
  lemma MaxDistinctPrefix(xs: seq<string>, n: nat)
    requires n < |xs|
    ensures MaxDistinct(xs[..n + 1]) ==
      if MaxDistinct(xs[..n]) < DistinctCount(xs[n]) then DistinctCount(xs[n]) else MaxDistinct(xs[..n])
  {
    assert xs[..n + 1][..n] == xs[..n];
  }

  /** Keep-test: the word has exactly `m` different letters. */
  function HasDistinctCount(m: int): string -> bool
  {
    w => DistinctCount(w) == m
  }

  /** The words, in order, whose number of different letters is not exceeded by any word of
      the list. A non-empty list always has at least one. */
  function MostDistinct(xs: seq<string>): (r: seq<string>)
    ensures Subseq(r, xs)
    ensures forall w :: w in r <==> w in xs && forall v :: v in xs ==> DistinctCount(v) <= DistinctCount(w)
    ensures xs != [] ==> r != []
    ensures forall w :: w in r ==> Count(r, w) == Count(xs, w)
  {
    var m := MaxDistinct(xs);
    var r := Filter(xs, HasDistinctCount(m));
    FilterCount(xs, HasDistinctCount(m));
    if xs != [] then
      var v :| v in xs && DistinctCount(v) == m;
      assert v in r;
      r
    else
      r
  }

  /** `__Selection_word_with_highest_number_different_letters`: one pass keeping the running
      maximum `large`; when a word beats it the list collected so far is emptied. */
  method SelectionWordWithHighestNumberDifferentLetters(listOfWord: seq<string>) returns (r: seq<string>)
    ensures r == MostDistinct(listOfWord)
  {
    var large: int := -1;
    r := [];
    for i := 0 to |listOfWord|
      invariant large == MaxDistinct(listOfWord[..i])
      invariant r == Filter(listOfWord[..i], HasDistinctCount(large))
    {
      var word := listOfWord[i];
      var tam := DistinctCount(word);
      MaxDistinctPrefix(listOfWord, i);
      if large < tam {
        FilterNone(listOfWord[..i], HasDistinctCount(tam));
        large := tam;
        r := [];
      }
      FilterPrefix(listOfWord, i, HasDistinctCount(large));
      if large == tam {
        r := r + [word];
      }
    }
    assert listOfWord[..|listOfWord|] == listOfWord;
  }

  // ---------------------------------------------------------------------------------------
  // Choosing the letter at one position
  // ---------------------------------------------------------------------------------------

  /** `letter_word`: the letters of the candidates at position `index`, in order. */
  function Column(words: seq<string>, index: nat): (col: string)
    requires forall w :: w in words ==> index < |w|
    ensures |col| == |words|
    ensures forall k :: 0 <= k < |words| ==> col[k] == words[k][index]
  {
    seq(|words|, k requires 0 <= k < |words| => assert words[k] in words; words[k][index])
  }

  /** The alphabet loop of `select_word` from letter `i` of `alphabet` on, `best` being the
      index of the letter chosen so far: a letter replaces it only when strictly more frequent. */
  function LetterScan(col: string, alphabet: string, i: nat, best: nat): (k: nat)
    requires 0 < i <= |alphabet| && best < i
    ensures k < |alphabet|
    decreases |alphabet| - i
  {
    if i == |alphabet| then best
    else if Count(col, alphabet[best]) < Count(col, alphabet[i]) then LetterScan(col, alphabet, i + 1, i)
    else LetterScan(col, alphabet, i + 1, best)
  }

  /** The letter `select_word` picks for a column (see `BestLetterIsMostFrequent`). */
  function BestLetter(col: string, alphabet: string): (c: char)
    requires |alphabet| > 0
    ensures c in alphabet
  {
    alphabet[LetterScan(col, alphabet, 1, 0)]
  }

  /** If `best` is the first most frequent letter among the first `i`, the scan ends on the
      first most frequent letter of the whole alphabet. */
  lemma {:induction false} LetterScanFirstMax(col: string, alphabet: string, i: nat, best: nat)
    requires 0 < i <= |alphabet| && best < i
    requires forall j :: 0 <= j < i ==> Count(col, alphabet[j]) <= Count(col, alphabet[best])
    requires forall j :: 0 <= j < best ==> Count(col, alphabet[j]) < Count(col, alphabet[best])
    ensures forall j :: 0 <= j < |alphabet| ==>
      Count(col, alphabet[j]) <= Count(col, alphabet[LetterScan(col, alphabet, i, best)])
    ensures forall j :: 0 <= j < LetterScan(col, alphabet, i, best) ==>
      Count(col, alphabet[j]) < Count(col, alphabet[LetterScan(col, alphabet, i, best)])
    decreases |alphabet| - i
  {
    if i < |alphabet| {
      if Count(col, alphabet[best]) < Count(col, alphabet[i]) {
        LetterScanFirstMax(col, alphabet, i + 1, i);
      } else {
        LetterScanFirstMax(col, alphabet, i + 1, best);
      }
    }
  }

  /** The letter picked is the most frequent letter of the alphabet in the column, the
      earliest in alphabet order among equally frequent ones. */
  lemma BestLetterIsMostFrequent(col: string, alphabet: string)
    requires |alphabet| > 0
    ensures BestLetter(col, alphabet) in alphabet
    ensures forall k :: 0 <= k < |alphabet| ==> Count(col, alphabet[k]) <= Count(col, BestLetter(col, alphabet))
    ensures exists k :: (0 <= k < |alphabet| && alphabet[k] == BestLetter(col, alphabet)
      && forall j :: 0 <= j < k ==> Count(col, alphabet[j]) < Count(col, BestLetter(col, alphabet)))
  {
    LetterScanFirstMax(col, alphabet, 1, 0);
    var k := LetterScan(col, alphabet, 1, 0);
    assert alphabet[k] == BestLetter(col, alphabet);
  }

  /** The alphabet loop of `select_word`: the running maximum `large` starts at -1 and is
      replaced only by a strictly larger count, so the first most frequent letter wins. The
      choice starts as the empty string, as in the source, and every count beats -1. */
  method ChooseLetter(column: string, alphabet: string) returns (letterSelect: string)
    requires |alphabet| > 0
    ensures letterSelect == [BestLetter(column, alphabet)]
  {
    var large: int := -1;
    letterSelect := "";
    ghost var best := 0;
    for i := 0 to |alphabet|
      invariant i == 0 ==> large == -1 && letterSelect == ""
      invariant i > 0 ==> (best < i && large == Count(column, alphabet[best]) && letterSelect == [alphabet[best]]
        && LetterScan(column, alphabet, i, best) == LetterScan(column, alphabet, 1, 0))
    {
      var amount := LetterCounter(column, [alphabet[i]]);
      LetterCounterSingle(column, alphabet[i]);
      if large < amount {
        large := amount;
        letterSelect := [alphabet[i]];
        best := i;
      }
    }
  }

  // ---------------------------------------------------------------------------------------
  // Narrowing position by position
  // ---------------------------------------------------------------------------------------

  /** Keep-test of one narrowing step: the word has letter `c` at position `index`. */
  function LetterAt(index: nat, c: char): string -> bool
  {
    w => index < |w| && w[index] == c
  }

  /** The words with letter `c` at position `index`, in order. */
  function KeepAt(words: seq<string>, index: nat, c: char): seq<string>
  {
    if words == [] then []
    else (if index < |words[0]| && words[0][index] == c then [words[0]] else []) + KeepAt(words[1..], index, c)
  }

  lemma {:induction false} KeepAtMembers(words: seq<string>, index: nat, c: char)
    ensures forall w :: w in KeepAt(words, index, c) <==> w in words && index < |w| && w[index] == c
  {
    if words != [] {
      KeepAtMembers(words[1..], index, c);
      assert words == [words[0]] + words[1..];
    }
  }

  lemma {:induction false} KeepAtFilter(words: seq<string>, index: nat, c: char)
    ensures KeepAt(words, index, c) == Filter(words, LetterAt(index, c))
  {
    if words != [] {
      KeepAtFilter(words[1..], index, c);
    }
  }

  /** A letter occurs in `letter_word` once per candidate carrying it at the position, so the
      count `select_word` compares is the number of candidates the letter would keep. */
  lemma {:induction false} ColumnCount(words: seq<string>, index: nat)
    requires forall w :: w in words ==> index < |w|
    ensures forall c :: Count(Column(words, index), c) == |KeepAt(words, index, c)|
  {
    if words != [] {
      var rest := words[1..];
      assert forall w :: w in rest ==> w in words;
      ColumnCount(rest, index);
      var col := Column(words, index);
      assert words[0] in words;
      assert col[0] == words[0][index] && col[1..] == Column(rest, index);
    }
  }

  /** One pass of the outer loop of `select_word` at position `index`: the candidates carrying
      the letter chosen for that position, in order (see `StepMembers`). */
  function Step(words: seq<string>, alphabet: string, index: nat): (r: seq<string>)
    requires |alphabet| > 0
    requires forall w :: w in words ==> index < |w|
  {
    KeepAt(words, index, BestLetter(Column(words, index), alphabet))
  }

  /** A step keeps exactly the words carrying the chosen letter at the position. */
  lemma StepMembers(words: seq<string>, alphabet: string, index: nat)
    requires |alphabet| > 0
    requires forall w :: w in words ==> index < |w|
    ensures forall w :: w in Step(words, alphabet, index) <==>
      (w in words && w[index] == BestLetter(Column(words, index), alphabet))
  {
    KeepAtMembers(words, index, BestLetter(Column(words, index), alphabet));
  }

  /** A step keeps the order of the candidates. */
  lemma StepSubseq(words: seq<string>, alphabet: string, index: nat)
    requires |alphabet| > 0
    requires forall w :: w in words ==> index < |w|
    ensures Subseq(Step(words, alphabet, index), words)
  {
    KeepAtFilter(words, index, BestLetter(Column(words, index), alphabet));
  }

  /** A step on a non-empty list spelled at that position with letters of the alphabet keeps
      a word: the chosen letter is at least as frequent as the first word's letter. */
  lemma StepNonEmpty(words: seq<string>, alphabet: string, index: nat)
    requires |alphabet| > 0
    requires forall w :: w in words ==> index < |w| && w[index] in alphabet
    requires |words| > 0
    ensures |Step(words, alphabet, index)| > 0
  {
    var col := Column(words, index);
    var c := BestLetter(col, alphabet);
    BestLetterIsMostFrequent(col, alphabet);
    assert words[0] in words;
    var k0 :| 0 <= k0 < |alphabet| && alphabet[k0] == col[0];
    assert col[0] in col;
    var j :| 0 <= j < |col| && col[j] == c;
    assert words[j] in words;
    StepMembers(words, alphabet, index);
    assert words[j] in Step(words, alphabet, index);
  }

  /** The number of passes of `for index in range(length_target_word)`. */
  function Rounds(lengthTargetWord: int): nat
  {
    if lengthTargetWord < 0 then 0 else lengthTargetWord
  }

  /** The candidates left when positions `index`, ..., `n - 1` are processed in turn. */
  ghost function Narrowed(words: seq<string>, alphabet: string, index: nat, n: nat): (r: seq<string>)
    requires |alphabet| > 0
    requires forall w :: w in words ==> n <= |w|
    decreases n - index
  {
    if n <= index then words
    else
      StepMembers(words, alphabet, index);
      Narrowed(Step(words, alphabet, index), alphabet, index + 1, n)
  }

  /** Narrowing keeps the order of the candidates. */
  lemma {:induction false} NarrowedSubseq(words: seq<string>, alphabet: string, index: nat, n: nat)
    requires |alphabet| > 0
    requires forall w :: w in words ==> n <= |w|
    ensures Subseq(Narrowed(words, alphabet, index, n), words)
    decreases n - index
  {
    if n <= index {
      SubseqReflexive(words);
    } else {
      StepMembers(words, alphabet, index);
      var stepped := Step(words, alphabet, index);
      StepSubseq(words, alphabet, index);
      NarrowedSubseq(stepped, alphabet, index + 1, n);
      SubseqTransitive(Narrowed(stepped, alphabet, index + 1, n), stepped, words);
    }
  }

  /** Narrowing keeps only words of its input. */
  lemma {:induction false} NarrowedMembers(words: seq<string>, alphabet: string, index: nat, n: nat)
    requires |alphabet| > 0
    requires forall w :: w in words ==> n <= |w|
    ensures forall w :: w in Narrowed(words, alphabet, index, n) ==> w in words
    decreases n - index
  {
    if index < n {
      StepMembers(words, alphabet, index);
      NarrowedMembers(Step(words, alphabet, index), alphabet, index + 1, n);
    }
  }

  /** Narrowing from `index` is one step followed by narrowing from `index + 1`. */
  lemma NarrowedStep(words: seq<string>, alphabet: string, index: nat, n: nat)
    requires |alphabet| > 0 && index < n
    requires forall w :: w in words ==> n <= |w|
    ensures forall w :: w in Step(words, alphabet, index) ==> n <= |w|
    ensures Narrowed(words, alphabet, index, n) == Narrowed(Step(words, alphabet, index), alphabet, index + 1, n)
  {
    StepMembers(words, alphabet, index);
  }

  /** Any two of the words agree at every position below `k`. */
  ghost predicate AgreeBelow(words: seq<string>, k: int)
  {
    forall u, v :: u in words && v in words ==> SameBelow(u, v, k)
  }

  /** The two words have the same letter at every position below `k` they both have. */
  ghost predicate SameBelow(u: string, v: string, k: int)
  {
    forall i :: 0 <= i < k && i < |u| && i < |v| ==> u[i] == v[i]
  }

  /** Words at least `n` long that agree at every position below `index`. */
  ghost predicate AgreeUpTo(words: seq<string>, alphabet: string, index: nat, n: nat)
  {
    |alphabet| > 0 && index <= n && (forall w :: w in words ==> n <= |w|) && AgreeBelow(words, index)
  }

  /** A step at position `index` adds agreement at that position. */
  lemma StepAgree(words: seq<string>, alphabet: string, index: nat, n: nat)
    requires index < n && AgreeUpTo(words, alphabet, index, n)
    ensures AgreeUpTo(Step(words, alphabet, index), alphabet, index + 1, n)
  {
    var r := Step(words, alphabet, index);
    var c := BestLetter(Column(words, index), alphabet);
    StepMembers(words, alphabet, index);
    forall u, v | u in r && v in r ensures SameBelow(u, v, index + 1) {
      assert u in words && v in words;
      assert u[index] == c && v[index] == c;
    }
  }

  /** All candidates left after narrowing agree at every position narrowed on. */
  lemma {:induction false} NarrowAgree(words: seq<string>, alphabet: string, index: nat, n: nat)
    requires AgreeUpTo(words, alphabet, index, n)
    ensures AgreeBelow(Narrowed(words, alphabet, index, n), n)
    decreases n - index
  {
    if index < n {
      StepAgree(words, alphabet, index, n);
      NarrowedStep(words, alphabet, index, n);
      NarrowAgree(Step(words, alphabet, index), alphabet, index + 1, n);
    }
  }

  /** The first `n` characters of every word are letters of `alphabet`. */
  ghost predicate Spelled(words: seq<string>, alphabet: string, n: int)
  {
    forall w :: w in words ==> forall i :: 0 <= i < n && i < |w| ==> w[i] in alphabet
  }

  /** A non-empty list of words at least `n` long whose first `n` characters are letters of
      a non-empty alphabet. */
  ghost predicate Spellable(words: seq<string>, alphabet: string, n: nat)
  {
    |alphabet| > 0 && |words| > 0 && (forall w :: w in words ==> n <= |w|) && Spelled(words, alphabet, n)
  }

  /** A step on such a list leaves such a list. */
  lemma StepSpelled(words: seq<string>, alphabet: string, index: nat, n: nat)
    requires index < n && Spellable(words, alphabet, n)
    ensures Spellable(Step(words, alphabet, index), alphabet, n)
  {
    forall w | w in words ensures index < |w| && w[index] in alphabet {
    }
    StepNonEmpty(words, alphabet, index);
    StepMembers(words, alphabet, index);
  }

  /** Narrowing a non-empty list whose words spell the narrowed positions with letters of the
      alphabet never leaves it empty. */
  lemma {:induction false} NarrowNonEmpty(words: seq<string>, alphabet: string, index: nat, n: nat)
    requires Spellable(words, alphabet, n)
    ensures |Narrowed(words, alphabet, index, n)| > 0
    decreases n - index
  {
    if index < n {
      StepSpelled(words, alphabet, index, n);
      NarrowNonEmpty(Step(words, alphabet, index), alphabet, index + 1, n);
    }
  }

  /** One pass of the outer loop of `select_word`: collect the column, choose its letter, list
      the candidates with another letter there and remove each of them with `list.remove`. */
  method NarrowAt(candidates: seq<string>, alphabet: string, index: nat) returns (r: seq<string>)
    requires |alphabet| > 0
    requires forall w :: w in candidates ==> index < |w|
    ensures r == Step(candidates, alphabet, index)
  {
    var letterWord: string := [];
    for k := 0 to |candidates|
      invariant |letterWord| == k
      invariant forall j :: 0 <= j < k ==> letterWord[j] == candidates[j][index]
    {
      assert candidates[k] in candidates;
      letterWord := letterWord + [candidates[k][index]];
    }
    assert letterWord == Column(candidates, index);
    var letterSelect := ChooseLetter(letterWord, alphabet);
    ghost var keep := LetterAt(index, letterSelect[0]);
    var wordsToRemove: seq<string> := [];
    for k := 0 to |candidates|
      invariant wordsToRemove == Filter(candidates[..k], Not(keep))
    {
      var word := candidates[k];
      assert word in candidates;
      assert candidates[..k + 1] == candidates[..k] + [word];
      FilterAppend(candidates[..k], word, Not(keep));
      if [word[index]] != letterSelect {
        wordsToRemove := wordsToRemove + [word];
      }
    }
    assert candidates[..|candidates|] == candidates;
    r := candidates;
    DropRejectedNone(candidates, keep);
    for j := 0 to |wordsToRemove|
      invariant r == DropRejected(candidates, keep, j)
    {
      DropRejectedStep(candidates, keep, j);
      r := RemoveFirst(r, wordsToRemove[j]);
    }
    DropRejectedAll(candidates, keep);
    KeepAtFilter(candidates, index, letterSelect[0]);
  }

  /** What `select_word` returns: the first candidate left after narrowing the words with the
      most different letters over positions 0 to `lengthTargetWord - 1`, or `None` where the
      source raises IndexError on an empty list. */
  ghost function SelectSpec(possibleWords: seq<string>, lengthTargetWord: int): (r: Option<string>)
    requires forall w :: w in MostDistinct(possibleWords) ==> lengthTargetWord <= |w|
    ensures r.Some? ==> (r.value in possibleWords
      && forall v :: v in possibleWords ==> DistinctCount(v) <= DistinctCount(r.value))
    ensures possibleWords == [] ==> r == None
    ensures possibleWords != [] && Spelled(MostDistinct(possibleWords), Alphabet, lengthTargetWord) ==> r.Some?
  {
    var left := Narrowed(MostDistinct(possibleWords), Alphabet, 0, Rounds(lengthTargetWord));
    SelectionLeft(possibleWords, Alphabet, lengthTargetWord);
    if left == [] then None else Some(left[0])
  }

  lemma SelectSpecLeft(possibleWords: seq<string>, lengthTargetWord: int)
    requires forall w :: w in MostDistinct(possibleWords) ==> lengthTargetWord <= |w|
    ensures var left := Narrowed(MostDistinct(possibleWords), Alphabet, 0, Rounds(lengthTargetWord));
      SelectSpec(possibleWords, lengthTargetWord) == if left == [] then None else Some(left[0])
  {
  }

  /** The candidates left by `select_word` are words of the list with the most different
      letters; none are left from an empty list, and some are left from a non-empty one
      spelled with letters of the alphabet. */
  lemma SelectionLeft(possibleWords: seq<string>, alphabet: string, lengthTargetWord: int)
    requires |alphabet| > 0
    requires forall w :: w in MostDistinct(possibleWords) ==> lengthTargetWord <= |w|
    ensures forall w :: w in Narrowed(MostDistinct(possibleWords), alphabet, 0, Rounds(lengthTargetWord)) ==>
      w in possibleWords && forall v :: v in possibleWords ==> DistinctCount(v) <= DistinctCount(w)
    ensures possibleWords == [] ==> Narrowed(MostDistinct(possibleWords), alphabet, 0, Rounds(lengthTargetWord)) == []
    ensures possibleWords != [] && Spelled(MostDistinct(possibleWords), alphabet, lengthTargetWord) ==>
      Narrowed(MostDistinct(possibleWords), alphabet, 0, Rounds(lengthTargetWord)) != []
  {
    var words := MostDistinct(possibleWords);
    NarrowedMembers(words, alphabet, 0, Rounds(lengthTargetWord));
    if possibleWords == [] {
      NoMembersEmpty(Narrowed(words, alphabet, 0, Rounds(lengthTargetWord)));
    }
    if possibleWords != [] && Spelled(words, alphabet, lengthTargetWord) {
      assert Spellable(words, alphabet, Rounds(lengthTargetWord));
      NarrowNonEmpty(words, alphabet, 0, Rounds(lengthTargetWord));
    }
  }

  /** The outer loop of `select_word`: one `NarrowAt` pass per position
      `0 .. lengthTargetWord - 1`. */
  method NarrowPositions(words: seq<string>, alphabet: string, lengthTargetWord: int) returns (candidates: seq<string>)
    requires |alphabet| > 0
    requires forall w :: w in words ==> lengthTargetWord <= |w|
    ensures candidates == Narrowed(words, alphabet, 0, Rounds(lengthTargetWord))
  {
    var n := Rounds(lengthTargetWord);
    candidates := words;
    for index := 0 to n
      invariant forall w :: w in candidates ==> n <= |w|
      invariant Narrowed(candidates, alphabet, index, n) == Narrowed(words, alphabet, 0, n)
    {
      NarrowedStep(candidates, alphabet, index, n);
      candidates := NarrowAt(candidates, alphabet, index);
    }
  }

  /** `select_word`: the words with the most different letters, narrowed position by position
      with the letters of `Alphabet`; the first word left is the guess. */
  method SelectWord(possibleWords: seq<string>, lengthTargetWord: int) returns (r: Option<string>)
    requires forall w :: w in MostDistinct(possibleWords) ==> lengthTargetWord <= |w|
    ensures r == SelectSpec(possibleWords, lengthTargetWord)
    ensures r.Some? ==> (r.value in possibleWords
      && forall v :: v in possibleWords ==> DistinctCount(v) <= DistinctCount(r.value))
    ensures possibleWords == [] ==> r == None
  {
    var mostDistinct := SelectionWordWithHighestNumberDifferentLetters(possibleWords);
    var candidates := NarrowPositions(mostDistinct, Alphabet, lengthTargetWord);
    SelectSpecLeft(possibleWords, lengthTargetWord);
    if candidates == [] {
      return None;
    }
    return Some(candidates[0]);
  }

  // ---------------------------------------------------------------------------------------
  // Properties
  // ---------------------------------------------------------------------------------------

  /** Keeping the words with the most different letters a second time changes nothing. */
  lemma MostDistinctIdempotent(xs: seq<string>)
    ensures MostDistinct(MostDistinct(xs)) == MostDistinct(xs)
  {
    var r := MostDistinct(xs);
    if xs != [] {
      var m := MaxDistinct(xs);
      var v :| v in xs && DistinctCount(v) == m;
      assert v in r;
      assert forall w :: w in r ==> DistinctCount(w) == m;
      var v2 :| v2 in r && DistinctCount(v2) == MaxDistinct(r);
      assert MaxDistinct(r) == m;
      FilterAll(r, HasDistinctCount(m));
    }
  }

  /** When every word has exactly `n` letters, narrowing over all `n` positions leaves copies
      of a single word only. */
  lemma NarrowLeavesOneWord(words: seq<string>, alphabet: string, n: nat)
    requires |alphabet| > 0
    requires forall w :: w in words ==> |w| == n
    ensures forall u, v :: u in Narrowed(words, alphabet, 0, n) && v in Narrowed(words, alphabet, 0, n) ==> u == v
  {
    var left := Narrowed(words, alphabet, 0, n);
    NarrowedMembers(words, alphabet, 0, n);
    assert AgreeUpTo(words, alphabet, 0, n);
    NarrowAgree(words, alphabet, 0, n);
    forall u, v | u in left && v in left ensures u == v {
      assert u in words && v in words;
    }
  }

  /** When every word with the most different letters has exactly `lengthTargetWord` letters,
      every candidate left is the returned word. */
  lemma SelectedIsOnlyWordLeft(possibleWords: seq<string>, lengthTargetWord: int)
    requires forall w :: w in MostDistinct(possibleWords) ==> |w| == lengthTargetWord
    ensures SelectSpec(possibleWords, lengthTargetWord).Some? ==>
      forall w :: w in Narrowed(MostDistinct(possibleWords), Alphabet, 0, Rounds(lengthTargetWord)) ==>
        w == SelectSpec(possibleWords, lengthTargetWord).value
  {
    var words := MostDistinct(possibleWords);
    var left := Narrowed(words, Alphabet, 0, Rounds(lengthTargetWord));
    SelectSpecLeft(possibleWords, lengthTargetWord);
    if left != [] {
      var w0 :| w0 in words;
      NarrowLeavesOneWord(words, Alphabet, Rounds(lengthTargetWord));
      HeadMember(left);
    }
  }

  /** Ties between letters go to the earlier letter of the alphabet, not to the earlier
      candidate: for the column "ea" the letter `a` is chosen. */
  lemma BestLetterTieExample()
    ensures BestLetter("ea", Alphabet) == 'a'
  {
    var c := BestLetter("ea", Alphabet);
    BestLetterIsMostFrequent("ea", Alphabet);
    assert Alphabet[0] == 'a';
    assert Count("ea", 'a') == 1;
    assert Count("ea", c) <= 1;
  }

  /** Two words with as many different letters each are both kept, in order. */
  lemma MostDistinctOfTie(u: string, v: string)
    requires DistinctCount(u) == DistinctCount(v)
    ensures MostDistinct([u, v]) == [u, v]
  {
    assert [u, v][..1] == [u];
    assert [u][..0] == [];
    assert MaxDistinct([u, v]) == DistinctCount(u);
    FilterAll([u, v], HasDistinctCount(DistinctCount(u)));
  }

  /** For the column `x`, `y`, where `x` is letter `i` of the alphabet and `y` is not among
      its first `i + 1` letters, `x` is chosen. */
  lemma BestLetterOfTwo(x: char, y: char, alphabet: string, i: nat)
    requires i < |alphabet| && alphabet[i] == x && y !in alphabet[..i + 1]
    ensures BestLetter([x, y], alphabet) == x
  {
    var col := [x, y];
    var c := BestLetter(col, alphabet);
    BestLetterIsMostFrequent(col, alphabet);
    assert alphabet[..i + 1][i] == x;
    assert Count(col, x) == 1;
    assert Count(col, c) <= 1;
    var k :| 0 <= k < |alphabet| && alphabet[k] == c
      && forall j :: 0 <= j < k ==> Count(col, alphabet[j]) < Count(col, c);
    assert k <= i;
    assert alphabet[..i + 1][k] == c;
  }

  /** Two words of `n >= 1` letters with different first letters, the first word's being the
      letter chosen there and all of its letters in the alphabet: the first word alone is
      left. */
  lemma NarrowTwoWords(u: string, v: string, alphabet: string, n: nat)
    requires |alphabet| > 0 && 0 < n && |u| == n && |v| == n
    requires u[0] != v[0] && BestLetter([u[0], v[0]], alphabet) == u[0]
    requires forall i :: 0 <= i < n ==> u[i] in alphabet
    ensures Narrowed([u, v], alphabet, 0, n) != []
    ensures forall w :: w in Narrowed([u, v], alphabet, 0, n) ==> w == u
  {
    var words := [u, v];
    assert Column(words, 0) == [u[0], v[0]];
    var c := BestLetter(Column(words, 0), alphabet);
    assert words[1..] == [v] && [v][1..] == [];
    assert KeepAt([v], 0, c) == [];
    assert KeepAt(words, 0, c) == [u] + KeepAt([v], 0, c);
    assert Step(words, alphabet, 0) == [u];
    NarrowedStep(words, alphabet, 0, n);
    assert Narrowed(words, alphabet, 0, n) == Narrowed([u], alphabet, 1, n);
    assert Spellable([u], alphabet, n);
    NarrowNonEmpty([u], alphabet, 1, n);
    NarrowedMembers([u], alphabet, 1, n);
  }

  /** Five pairwise different values form a sequence without duplicates. */
  lemma NoDupFive<T>(a: T, b: T, c: T, d: T, e: T)
    requires a != b && a != c && a != d && a != e && b != c && b != d && b != e
    requires c != d && c != e && d != e
    ensures NoDup([a, b, c, d, e])
  {
  }

  /** Two candidates with as many different letters each, of `n >= 1` letters all in
      `Alphabet`, whose first letters differ, the first word's being chosen there: the first
      word is the guess. */
  lemma SelectTwoWords(u: string, v: string, n: nat)
    requires DistinctCount(u) == DistinctCount(v)
    requires 0 < n && |u| == n && |v| == n
    requires u[0] != v[0] && BestLetter([u[0], v[0]], Alphabet) == u[0]
    requires forall i :: 0 <= i < n ==> u[i] in Alphabet
    ensures SelectSpec([u, v], n) == Some(u)
  {
    MostDistinctOfTie(u, v);
    NarrowTwoWords(u, v, Alphabet, n);
    SelectSpecLeft([u, v], n);
    HeadMember(Narrowed([u, v], Alphabet, 0, n));
  }

  /** Both candidates have five different letters; at position 0 the column is "ps" and `p`
      comes before `s` in the alphabet, so "plane" is the guess. */
  lemma SelectPlaneSlateExample()
    ensures SelectSpec(["plane", "slate"], 5) == Some("plane")
  {
    NoDupFive('p', 'l', 'a', 'n', 'e');
    NoDupFive('s', 'l', 'a', 't', 'e');
    DistinctCountAllDifferent("plane");
    DistinctCountAllDifferent("slate");
    assert Alphabet[17] == 'p';
    assert 's' !in Alphabet[..18];
    BestLetterOfTwo('p', 's', Alphabet, 17);
    SelectTwoWords("plane", "slate", 5);
  }
}
