/** `HangmanGame`: the game object whose three fields the guess handler
    and the reset update in place. Each method is proved against the value
    definitions of module Rules; the widgets, message boxes and images are
    not part of this model. */
module Hangman {
  import opened Letters
  import opened WordBank
  import opened Display
  import opened Rules

  class HangmanGame {
    var word: string
    var guessed: seq<char>
    var incorrect: nat

    /** The three fields as one value. */
    function State(): GameState
      reads this
    {
      GameState(word, guessed, incorrect)
    }

    ghost predicate Valid()
      reads this
    {
      ValidState(State())
    }

    /** A new game on the word `w`, the one `random.choice` drew from the list. */
    constructor (w: string)
      requires w in WordList
      ensures Valid() && State() == NewRound(w)
    {
      var round := NewRound(w);
      word := Lower(w);
      guessed := [];
      incorrect := 0;
      new;
      assert State() == round;
    }

    /** The masked word: one entry per letter, masked unless guessed, with
        spaces between; while the round is open at least one letter is
        still hidden. */
    function GetDisplayWord(): (r: string)
      reads this
      ensures |word| == 0 ==> r == ""
      ensures |word| > 0 ==> |r| == 2 * |word| - 1
      ensures forall i :: 0 <= i < |word| ==> r[2 * i] == if word[i] in guessed then word[i] else Placeholder
      ensures forall k :: 0 <= k < |r| && k % 2 == 1 ==> r[k] == ' '
      ensures Valid() ==> Placeholder in r
    {
      DisplayWordAt(word, guessed);
      // Both branches give the same text; the test only decides whether the
      // open-round lemma may be applied, for the last postcondition.
      if ValidState(State()) then
        OpenRoundShowsPlaceholder(State());
        DisplayWord(word, guessed)
      else
        DisplayWord(word, guessed)
    }

    /** Handles one submitted input: rejects it, or records the letter and
        then decides the round, starting the next round on `nextWord` when
        the round is won or lost. */
    method SubmitGuess(input: string, nextWord: string) returns (r: Outcome)
      requires Valid() && nextWord in WordList
      modifies this
      ensures Valid()
      ensures (r, State()) == Guess(old(State()), input, nextWord)
    {
      GuessPreservesValid(State(), input, nextWord);
      var g := Lower(input);
      if |g| != 1 || !IsLetter(g[0]) {
        return Invalid;
      }
      if g[0] in guessed {
        return AlreadyGuessed;
      }
      guessed := guessed + [g[0]];
      if g[0] !in word {
        incorrect := incorrect + 1;
      }
      r := UpdateGame(nextWord);
    }

    /** Ends the round when it is lost (checked first) or won, by starting a
        new one on `nextWord`; otherwise the state is kept. */
    method UpdateGame(nextWord: string) returns (r: Outcome)
      requires nextWord in WordList
      modifies this
      ensures r == RoundOutcome(old(State()))
      ensures State() == if r == Continue then old(State()) else NewRound(nextWord)
    {
      if incorrect >= MaxAttempts {
        r := Lost;
        ResetGame(nextWord);
      } else if Revealed(word, guessed) {
        r := Won;
        ResetGame(nextWord);
      } else {
        r := Continue;
      }
    }

    /** Starts a new round on `w`: its word, no guesses, no misses. */
    method ResetGame(w: string)
      requires w in WordList
      modifies this
      ensures Valid() && State() == NewRound(w)
      ensures RemainingAttempts(State()) == MaxAttempts
    {
      var round := NewRound(w);
      word := Lower(w);
      guessed := [];
      incorrect := 0;
      assert State() == round;
    }
  }
}
