/** The fixed list of candidate words (`word_list` in Hangman.py). */
module WordBank {
  import opened Letters

  const WordList: seq<string> := ["python", "hangman", "padlock", "unlock", "secure", "cipher", "algorithm"]

  /** What every entry of the list is: non-empty and lowercase alphabetic. */
  predicate WellFormedWord(w: string) {
    |w| > 0 && IsLowerWord(w)
  }

  /** The list can be drawn from, each entry is well formed, and the
      `.lower()` applied to a drawn word leaves it as it is. */
  lemma WordListWellFormed()
    ensures |WordList| > 0
    ensures forall w :: w in WordList ==> WellFormedWord(w) && Lower(w) == w
  {
  }
}
