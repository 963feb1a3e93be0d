# Hangman (padlock edition): the game-state core in Dafny

The program is a one-window word-guessing game. A word is drawn from a
fixed list; the player types one letter at a time; each wrong letter moves
a padlock picture one step; the round is lost after six wrong letters and
won once every letter of the word is shown, and either way a new round
starts at once.

This project models the state behind that window, class `HangmanGame` in
Hangman.py: the word to guess, the list of guessed letters and the counter
of wrong guesses, with the limit `max_attempts = 6`; the masked word shown
to the player; the handling of one submitted guess (validation, recording,
counting) together with the end-of-round decision and the reset that
follows it.

Layout:

- `Letters.dfy` — ASCII stand-ins for `str.lower()` and `str.isalpha()`.
- `WordBank.dfy` — the fixed `word_list` and the fact that every entry is a
  non-empty lowercase word.
- `Display.dfy` — the masked word: one entry per letter (the letter if
  guessed, `_` otherwise), joined by single spaces.
- `Rules.dfy` — the game state as a value, the invariant it keeps between
  two submissions, one submission as a function `Guess`, and the lemmas
  about it.
- `Game.dfy` — class `HangmanGame` with the three fields, whose methods
  `SubmitGuess`, `UpdateGame` and `ResetGame` change them in place and are
  proved equal to `Guess`, `RoundOutcome` and `NewRound`.

The invariant (`Rules.ValidState`, the class's `Valid()`): the word is an
entry of the list; no letter was guessed twice; every guess is a lowercase
letter; the counter equals the number of guessed letters missing from the
word; the counter is below 6; and the word is not fully revealed. The last
two hold between submissions because the game resets as soon as a round
is lost or won.

The guessed letters are kept as a list in guessing order. A won or lost
round is reset inside the same submission, before it returns, and the
returned `Outcome` is what makes the win or loss observable. In particular, after six misses on "cipher" the state
is a fresh round with 6 remaining attempts, not a state with 0 remaining.

## Model

| member | source | states |
|---|---|---|
| Letters.ToLower | Hangman.py:53 | lower-casing keeps letters letters and non-letters non-letters, maps every letter to a lowercase one, and changes only 'A'..'Z' |
| Letters.Lower | Hangman.py:53 | `input.lower()` has the input's length and is lower-cased at every position |
| WordBank.WordListWellFormed | Hangman.py:7 | the word list is non-empty, every entry is non-empty and lowercase alphabetic, and `.lower()` leaves each entry as it is |
| Display.SpaceJoin | Hangman.py:50 | `" ".join` of n one-character cells has 2n-1 characters (none for no cells), with cell k/2 at every even position k and a space at every odd one |
| Display.DisplayWordAt | Hangman.py:48-50 | the displayed word has 2n-1 characters for an n-letter word; position 2i shows letter i if it was guessed and `_` if not; odd positions are spaces |
| Display.PlaceholderIffUnguessed | Hangman.py:50 | the display contains `_` exactly when some letter of the word has not been guessed |
| Rules.MissCount | Hangman.py:63-66 | the number of missing letters never exceeds the number of guesses |
| Rules.MissCountAppend | Hangman.py:63-66 | appending a guess raises the miss count by one when the letter is not in the word and leaves it unchanged when it is |
| Rules.MissCountIsDistinctMisses | Hangman.py:59-66 | with no repeated guesses, the miss count is the number of distinct wrong letters |
| Rules.RemainingAttempts | Hangman.py:45 | remaining attempts plus the counter is always 6, and in a valid state remaining attempts lie in 1..6 |
| Rules.NewRound | Hangman.py:103-107 | a reset on a drawn word gives that word, no guesses, a zero counter, 6 remaining attempts and a valid state |
| Rules.LossAndWinExclusive | Hangman.py:82-87 | from a valid state, one new guess cannot both reach the miss limit and reveal the whole word |
| Rules.GuessPreservesValid | Hangman.py:52-87 | every submission, whatever the input, leaves a valid state: no duplicates, counter equal to the misses and below 6, round open |
| Rules.InvalidInputChangesNothing | Hangman.py:53-57 | the outcome is `Invalid` exactly when the lower-cased input is not a single letter, and then nothing changes |
| Rules.RepeatedLetterChangesNothing | Hangman.py:59-61 | the outcome is `AlreadyGuessed` exactly when the lower-cased letter was guessed before, and then nothing changes |
| Rules.NewLetterAppended | Hangman.py:63-68 | a new letter that keeps the round open is appended at the end with earlier guesses and the word unchanged, and the counter rises by one exactly on a miss; a new letter that ends the round leaves a fresh round on the drawn word |
| Rules.LostIff | Hangman.py:65-66 | the outcome is `Lost` exactly when a new letter misses and it is the sixth miss |
| Rules.WonIff | Hangman.py:85-87 | the outcome is `Won` exactly when a new letter is in the word and every letter of the word has then been guessed |
| Rules.SecondSubmissionRejected | Hangman.py:59-63 | submitting an accepted letter again is rejected as `AlreadyGuessed` and changes nothing |
| Rules.OpenRoundShowsPlaceholder | Hangman.py:85-87 | between submissions the displayed word always shows at least one `_` |
| Rules.Play | Hangman.py:52-68 | any sequence of submissions yields one outcome per input and ends in a valid state |
| Hangman.HangmanGame.constructor | Hangman.py:16-18 | a new game holds the lower-cased drawn word, no guesses and a zero counter, and is valid |
| Hangman.HangmanGame.GetDisplayWord | Hangman.py:48-50 | callable in any state: for an n-letter word the shown text has 2n-1 characters (none for the empty word), letter i at position 2i masked unless guessed and a space at every odd position, and it holds at least one `_` whenever the game is between submissions (valid) |
| Hangman.HangmanGame.SubmitGuess | Hangman.py:52-68 | the outcome and the new fields are those of `Guess` on the old fields, and the object stays valid |
| Hangman.HangmanGame.UpdateGame | Hangman.py:81-87 | returns `Lost` when the counter reached 6, else `Won` when every letter is guessed, else `Continue`; resets to the drawn word in the first two cases and changes nothing in the third |
| Hangman.HangmanGame.ResetGame | Hangman.py:103-107 | the fields become the drawn word, no guesses and a zero counter; remaining attempts is 6 |

## Left out

- The tkinter window, labels, entry field, button and main loop: user interface only. The text of the entry field is the `input` parameter of `SubmitGuess`.
- The message boxes (warning, info, game over, win): each is replaced by the returned `Outcome` value.
- `update_padlock_image`: loading and resizing an image file, with a missing file ignored. Its index is the counter, which is 0..6 when it is called (the counter is at most 6 after a guess is recorded, and below 6 between submissions).
- `random.choice`: the drawn word is a parameter (`w`, `nextWord`) required to be an entry of the word list.
- Letters.ToLower: models Python's `str.lower()` on ASCII only; Unicode case mappings (including those that change the length of a string) are not modelled.
- Letters.IsLetter: models `str.isalpha()` on ASCII only; non-ASCII letters, which the source accepts, are rejected by the model.
- `max_attempts` is an instance attribute in the source that is never reassigned; it is the module constant `Rules.MaxAttempts`.
