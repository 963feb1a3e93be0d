/** The masked form of the target word shown to the player
    (`get_display_word` in Hangman.py): a list comprehension that keeps the
    guessed letters and blanks the others, joined by single spaces. */
module Display {

  /** The symbol shown in place of a letter that has not been guessed. */
  const Placeholder: char := '_'

  /** One entry of the comprehension. */
  function MaskLetter(c: char, guessed: seq<char>): char {
    if c in guessed then c else Placeholder
  }

  /** The comprehension itself: one masked entry per letter of the word, in order. */
  function MaskedLetters(word: string, guessed: seq<char>): seq<char> {
    seq(|word|, i requires 0 <= i < |word| => MaskLetter(word[i], guessed))
  }

  /** `" ".join(cells)` for one-character cells: the cells sit at the even
      positions, in order, and a single space sits at every odd position. */
  function SpaceJoin(cells: seq<char>): (r: string)
    ensures |cells| == 0 ==> r == ""
    ensures |cells| > 0 ==> |r| == 2 * |cells| - 1
    ensures forall k :: 0 <= k < |r| ==> r[k] == if k % 2 == 0 then cells[k / 2] else ' '
  {
    if |cells| <= 1 then cells else [cells[0], ' '] + SpaceJoin(cells[1..])
  }

  /** The text shown for `word` once the letters in `guessed` have been tried. */
  function DisplayWord(word: string, guessed: seq<char>): string {
    SpaceJoin(MaskedLetters(word, guessed))
  }

  /** Position by position: letter i of the word appears at position 2i,
      as itself when guessed and as the placeholder otherwise; every odd
      position holds a space; a non-empty word of n letters gives 2n-1
      characters and the empty word gives the empty text. */
  lemma DisplayWordAt(word: string, guessed: seq<char>)
    ensures |word| == 0 ==> DisplayWord(word, guessed) == ""
    ensures |word| > 0 ==> |DisplayWord(word, guessed)| == 2 * |word| - 1
    ensures forall i :: 0 <= i < |word| ==>
      DisplayWord(word, guessed)[2 * i] == if word[i] in guessed then word[i] else Placeholder
    ensures forall k :: 0 <= k < |DisplayWord(word, guessed)| && k % 2 == 1 ==>
      DisplayWord(word, guessed)[k] == ' '
  {
  }

  /** A placeholder is shown exactly when some letter of the word has not
      been guessed (for words that do not themselves contain the placeholder). */
  lemma PlaceholderIffUnguessed(word: string, guessed: seq<char>)
    requires Placeholder !in word
    ensures Placeholder in DisplayWord(word, guessed) <==>
      exists i :: 0 <= i < |word| && word[i] !in guessed
  {
    var r := DisplayWord(word, guessed);
    DisplayWordAt(word, guessed);
    if exists i :: 0 <= i < |word| && word[i] !in guessed {
      var i :| 0 <= i < |word| && word[i] !in guessed;
      assert r[2 * i] == Placeholder;
    }
    if Placeholder in r {
      var k :| 0 <= k < |r| && r[k] == Placeholder;
      assert k % 2 == 0;
      var i := k / 2;
      assert 2 * i == k;
      assert word[i] !in guessed;
    }
  }
}
