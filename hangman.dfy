/** The Hangman web game's `HangmanGame`: the secret word, the set of
    characters guessed so far and the number of wrong guesses allowed, with
    the game's status and pictures derived from them.  `Guesses` and
    `MaxAttempts` have public setters (the session store writes them back),
    so they are plain mutable fields here. */
module Hangman {
  import opened HangmanRules

  class HangmanGame {
    var word: string
    var guesses: set<char>
    var maxAttempts: int

    /** The state every game reaches from its constructor and keeps: the word
        is one of the list's. */
    ghost predicate Valid()
      reads this
    {
      word in WordList
    }

    /** The constructor.  The random pick `rnd.Next(WordList.Length)` is the
        parameter `pick`. */
    constructor(pick: nat)
      requires pick < |WordList|
      ensures word == WordList[pick] && guesses == {} && maxAttempts == DefaultMaxAttempts
      ensures Valid()
    {
      word := WordList[pick];
      guesses := {};
      maxAttempts := DefaultMaxAttempts;
    }

    /** `WrongGuesses`. */
    function WrongGuesses(): (n: nat)
      reads this
      ensures n <= |guesses|
      ensures n == 0 <==> forall g :: g in guesses ==> g in word
    {
      WrongGuessCount(word, guesses)
    }

    /** `IsWon`: in a valid game, exactly when the masked word has no blank. */
    predicate IsWon()
      reads this
      ensures Valid() ==> (IsWon() <==> '_' !in GetMaskedWord())
    {
      ListedWordShowsWin(word, guesses);
      AllGuessed(word, guesses)
    }

    /** `IsLost`. */
    predicate IsLost()
      reads this
    {
      OutOfAttempts(word, guesses, maxAttempts)
    }

    /** `HangmanAsciiArt`: the picture for the wrong guesses so far, the last
        one once six or more are wrong. */
    function GetHangmanAsciiArt(): (art: string)
      reads this
      ensures art in HangmanStages
      ensures WrongGuesses() >= |HangmanStages| - 1 ==> art == HangmanStages[|HangmanStages| - 1]
      ensures WrongGuesses() < |HangmanStages| ==> art == HangmanStages[WrongGuesses()]
    {
      HangmanAsciiArt(WrongGuesses())
    }

    /** `GetMaskedWord`: the word's letters separated by spaces, blanks for
        the letters not yet guessed. */
    function GetMaskedWord(): (shown: string)
      reads this
      ensures word != [] ==> |shown| == 2 * |word| - 1
      ensures forall j :: 0 <= j < |shown| && j % 2 == 1 ==> shown[j] == ' '
      ensures forall i :: 0 <= i < |word| ==>
        shown[2 * i] == if word[i] in guesses then word[i] else '_'
    {
      MaskedWord(word, guesses)
    }

    /** `Guess`: adds the lower-cased character to the guesses.  Nothing is
        removed and the word does not change, so a repeated guess changes
        nothing, the wrong-guess count never falls and a game once won or
        lost stays so. */
    method Guess(c: char)
      modifies this
      ensures guesses == old(guesses) + {ToLowerAscii(c)}
      ensures word == old(word) && maxAttempts == old(maxAttempts)
      ensures Valid() == old(Valid())
      ensures ToLowerAscii(c) in old(guesses) ==> guesses == old(guesses)
      ensures old(WrongGuesses()) <= WrongGuesses()
      ensures old(IsWon()) ==> IsWon()
      ensures old(IsLost()) ==> IsLost()
    {
      ghost var before := guesses;
      guesses := guesses + {ToLowerAscii(c)};
      WrongGuessCountMonotonic(word, before, guesses);
      OutcomesArePermanent(word, before, guesses, maxAttempts);
    }
  }
}
