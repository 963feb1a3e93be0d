/** The rules of one round, on values: the state of `HangmanGame` as a
    record, the invariant every round keeps between two guesses, and the
    effect of one submitted guess (`submit_guess` followed by `update_game`
    and, on a win or a loss, `reset_game`). The class in Game.dfy is proved
    against these definitions. */
module Rules {
  import opened Letters
  import opened WordBank
  import opened Display

  /** `max_attempts`: wrong guesses allowed before the round is lost. */
  const MaxAttempts: nat := 6

  /** What one submission reports, in place of the message box the game shows. */
  datatype Outcome = Invalid | AlreadyGuessed | Continue | Won | Lost

  /** `word_to_guess`, `guessed_letters` (in the order guessed) and `incorrect_guesses`. */
  datatype GameState = GameState(word: string, guessed: seq<char>, incorrect: nat)

  /** How many of the guessed letters do not occur in the word. */
  function MissCount(guessed: seq<char>, word: string): (n: nat)
    ensures n <= |guessed|
  {
    if |guessed| == 0 then 0
    else (if guessed[0] in word then 0 else 1) + MissCount(guessed[1..], word)
  }

  /** Appending a letter adds one miss exactly when the letter is not in the word. */
  lemma {:induction false} MissCountAppend(guessed: seq<char>, c: char, word: string)
    ensures MissCount(guessed + [c], word) == MissCount(guessed, word) + (if c in word then 0 else 1)
  {
    if |guessed| > 0 {
      assert (guessed + [c])[1..] == guessed[1..] + [c];
      MissCountAppend(guessed[1..], c, word);
    } else {
      assert (guessed + [c])[1..] == [];
    }
  }

  predicate NoDuplicates(s: seq<char>) {
    forall i, j :: 0 <= i < j < |s| ==> s[i] != s[j]
  }

  /** Without repeats, the miss count is the number of distinct wrong letters. */
  lemma {:induction false} MissCountIsDistinctMisses(guessed: seq<char>, word: string)
    requires NoDuplicates(guessed)
    ensures MissCount(guessed, word) == |set c | c in guessed && c !in word|
  {
    var misses := set c | c in guessed && c !in word;
    if |guessed| == 0 {
      assert misses == {};
    } else {
      var rest := guessed[1..];
      var restMisses := set c | c in rest && c !in word;
      MissCountIsDistinctMisses(rest, word);
      assert guessed[0] !in rest by {
        forall j | 0 <= j < |rest| ensures rest[j] != guessed[0] {
          assert rest[j] == guessed[j + 1];
        }
      }
      assert guessed == [guessed[0]] + rest;
      if guessed[0] in word {
        assert misses == restMisses;
      } else {
        assert misses == restMisses + {guessed[0]};
      }
    }
  }

  /** Every letter of the word is among the guesses (the win test of `update_game`). */
  predicate Revealed(word: string, guessed: seq<char>) {
    forall i :: 0 <= i < |word| ==> word[i] in guessed
  }

  /** The state between two submissions: the word comes from the list, no
      letter was guessed twice, every guess is a lowercase letter, the counter
      is the number of misses, and the round is neither lost nor won (the
      game starts a new round as soon as either happens). */
  predicate ValidState(s: GameState) {
    && s.word in WordList
    && NoDuplicates(s.guessed)
    && (forall i :: 0 <= i < |s.guessed| ==> IsLowerLetter(s.guessed[i]))
    && s.incorrect == MissCount(s.guessed, s.word)
    && s.incorrect < MaxAttempts
    && !Revealed(s.word, s.guessed)
  }

  /** What the attempts label shows: `max_attempts - incorrect_guesses`. */
  function RemainingAttempts(s: GameState): (n: int)
    ensures n + s.incorrect == MaxAttempts
    ensures ValidState(s) ==> 0 < n <= MaxAttempts
  {
    MaxAttempts - s.incorrect
  }

  /** The state `reset_game` (and the constructor) sets up from the drawn word. */
  function NewRound(w: string): (s: GameState)
    requires w in WordList
    ensures ValidState(s)
    ensures s.word == w && s.guessed == [] && s.incorrect == 0
    ensures RemainingAttempts(s) == MaxAttempts
  {
    WordListWellFormed();
    assert Lower(w) == w && |w| > 0;
    assert w[0] !in [];
    GameState(Lower(w), [], 0)
  }

  /** The input is accepted only if, once lower-cased, it is one alphabetic character. */
  predicate IsSingleLetter(g: string) {
    |g| == 1 && IsLetter(g[0])
  }

  /** Appending a new letter and counting it when it misses. */
  function Record(s: GameState, c: char): GameState {
    GameState(s.word, s.guessed + [c], s.incorrect + if c in s.word then 0 else 1)
  }

  /** The decision of `update_game`: loss is checked before win. */
  function RoundOutcome(t: GameState): Outcome {
    if t.incorrect >= MaxAttempts then Lost
    else if Revealed(t.word, t.guessed) then Won
    else Continue
  }

  /** One submission: the outcome and the state afterwards. `nextWord`
      stands for the word `random.choice` draws if the round ends. */
  function Guess(s: GameState, input: string, nextWord: string): (Outcome, GameState)
    requires nextWord in WordList
  {
    var g := Lower(input);
    if !IsSingleLetter(g) then (Invalid, s)
    else if g[0] in s.guessed then (AlreadyGuessed, s)
    else
      var t := Record(s, g[0]);
      var o := RoundOutcome(t);
      if o == Continue then (o, t) else (o, NewRound(nextWord))
  }

  /** From a valid state, a miss cannot complete the word, so a guess
      never makes the round lost and won at once. */
  lemma LossAndWinExclusive(s: GameState, c: char)
    requires ValidState(s) && c !in s.guessed
    ensures !(Record(s, c).incorrect >= MaxAttempts && Revealed(s.word, s.guessed + [c]))
  {
  }

  /** Every submission leaves the game in a valid state: no duplicate
      guesses, the counter equal to the number of misses and below the
      limit, and the round still open. */
  lemma GuessPreservesValid(s: GameState, input: string, nextWord: string)
    requires ValidState(s) && nextWord in WordList
    ensures ValidState(Guess(s, input, nextWord).1)
  {
    var g := Lower(input);
    if IsSingleLetter(g) && g[0] !in s.guessed {
      var c := g[0];
      var t := Record(s, c);
      MissCountAppend(s.guessed, c, s.word);
      if RoundOutcome(t) == Continue {
        assert IsLowerLetter(c);
        assert NoDuplicates(t.guessed);
      }
    }
  }

  /** A rejected input (not a single letter once lower-cased) is reported as
      `Invalid` and changes nothing; no other input is reported as `Invalid`. */
  lemma InvalidInputChangesNothing(s: GameState, input: string, nextWord: string)
    requires nextWord in WordList
    ensures Guess(s, input, nextWord).0 == Invalid <==> !IsSingleLetter(Lower(input))
    ensures Guess(s, input, nextWord).0 == Invalid ==> Guess(s, input, nextWord).1 == s
  {
  }

  /** A letter already guessed is reported as `AlreadyGuessed` and changes
      nothing; no other input is reported that way. */
  lemma RepeatedLetterChangesNothing(s: GameState, input: string, nextWord: string)
    requires nextWord in WordList
    ensures Guess(s, input, nextWord).0 == AlreadyGuessed <==>
      IsSingleLetter(Lower(input)) && Lower(input)[0] in s.guessed
    ensures Guess(s, input, nextWord).0 == AlreadyGuessed ==> Guess(s, input, nextWord).1 == s
  {
  }

  /** A new letter that leaves the round open is appended at the end of the
      guesses, nothing else in them changes, the word is kept, and the
      counter goes up by one exactly when the letter misses the word. */
  lemma NewLetterAppended(s: GameState, input: string, nextWord: string)
    requires ValidState(s) && nextWord in WordList
    requires IsSingleLetter(Lower(input)) && Lower(input)[0] !in s.guessed
    ensures var (o, t) := Guess(s, input, nextWord);
      o == Continue ==>
        && t.word == s.word
        && t.guessed == s.guessed + [Lower(input)[0]]
        && t.guessed[..|s.guessed|] == s.guessed
        && (Lower(input)[0] in s.word ==> t.incorrect == s.incorrect)
        && (Lower(input)[0] !in s.word ==> t.incorrect == s.incorrect + 1)
    ensures var (o, t) := Guess(s, input, nextWord);
      o in {Continue, Won, Lost} && (o != Continue ==> t == NewRound(nextWord))
  {
  }

  /** The round is lost exactly when a new letter misses and it is the
      `max_attempts`-th miss. */
  lemma LostIff(s: GameState, input: string, nextWord: string)
    requires ValidState(s) && nextWord in WordList
    ensures Guess(s, input, nextWord).0 == Lost <==>
      var g := Lower(input);
      IsSingleLetter(g) && g[0] !in s.guessed && g[0] !in s.word && s.incorrect + 1 == MaxAttempts
  {
  }

  /** The round is won exactly when a new letter hits the word and every
      letter of the word has then been guessed. */
  lemma WonIff(s: GameState, input: string, nextWord: string)
    requires ValidState(s) && nextWord in WordList
    ensures Guess(s, input, nextWord).0 == Won <==>
      var g := Lower(input);
      IsSingleLetter(g) && g[0] !in s.guessed && g[0] in s.word
      && Revealed(s.word, s.guessed + [g[0]])
  {
  }

  /** Submitting the same letter again right after it was accepted is
      rejected as `AlreadyGuessed` and changes nothing. */
  lemma SecondSubmissionRejected(s: GameState, input: string, w1: string, w2: string)
    requires ValidState(s) && w1 in WordList && w2 in WordList
    requires Guess(s, input, w1).0 == Continue
    ensures Guess(Guess(s, input, w1).1, input, w2) == (AlreadyGuessed, Guess(s, input, w1).1)
  {
  }

  /** While the round is open the display still shows at least one placeholder. */
  lemma OpenRoundShowsPlaceholder(s: GameState)
    requires ValidState(s)
    ensures Placeholder in DisplayWord(s.word, s.guessed)
  {
    WordListWellFormed();
    PlaceholderIffUnguessed(s.word, s.guessed);
  }

  /** A session: the inputs submitted one after the other, the i-th drawing
      `draws[i]` if it ends the round. The outcome of each, and the final
      state, which is valid whatever the inputs were. */
  function Play(s: GameState, inputs: seq<string>, draws: seq<string>): (r: (seq<Outcome>, GameState))
    requires ValidState(s)
    requires |draws| == |inputs| && forall i :: 0 <= i < |draws| ==> draws[i] in WordList
    ensures |r.0| == |inputs|
    ensures ValidState(r.1)
    decreases |inputs|
  {
    if |inputs| == 0 then ([], s)
    else
      GuessPreservesValid(s, inputs[0], draws[0]);
      var (o, t) := Guess(s, inputs[0], draws[0]);
      var (os, u) := Play(t, inputs[1..], draws[1..]);
      ([o] + os, u)
  }
}
