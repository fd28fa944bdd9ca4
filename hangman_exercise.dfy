/** The exercise copy of `HangmanGame`: the same rules without the gallows
    pictures, and with `Guesses` and `MaxAttempts` read-only, so the limit is
    always six. */
module HangmanExercise {
  import opened HangmanRules

  class HangmanGame {
    var word: string
    var guesses: set<char>
    const maxAttempts: int := DefaultMaxAttempts

    ghost predicate Valid()
      reads this
    {
      word in WordList
    }

    /** The constructor; the random pick is the parameter `pick`. */
    constructor(pick: nat)
      requires pick < |WordList|
      ensures word == WordList[pick] && guesses == {}
      ensures Valid()
    {
      word := WordList[pick];
      guesses := {};
    }

    /** `WrongGuesses`. */
    function WrongGuesses(): (n: nat)
      reads this
      ensures n <= |guesses|
      ensures n == 0 <==> forall g :: g in guesses ==> g in word
    {
      WrongGuessCount(word, guesses)
    }

    /** `IsWon`: in a valid game, exactly when the masked word has no blank. */
    predicate IsWon()
      reads this
      ensures Valid() ==> (IsWon() <==> '_' !in GetMaskedWord())
    {
      ListedWordShowsWin(word, guesses);
      AllGuessed(word, guesses)
    }

    /** `IsLost`: six wrong guesses lose. */
    predicate IsLost()
      reads this
      ensures IsLost() <==> WrongGuesses() >= 6
    {
      OutOfAttempts(word, guesses, maxAttempts)
    }

    /** `GetMaskedWord`. */
    function GetMaskedWord(): (shown: string)
      reads this
      ensures word != [] ==> |shown| == 2 * |word| - 1
      ensures forall j :: 0 <= j < |shown| && j % 2 == 1 ==> shown[j] == ' '
      ensures forall i :: 0 <= i < |word| ==>
        shown[2 * i] == if word[i] in guesses then word[i] else '_'
    {
      MaskedWord(word, guesses)
    }

    /** `Guess`: adds the lower-cased character; repeating a guess changes
        nothing. */
    method Guess(c: char)
      modifies this
      ensures guesses == old(guesses) + {ToLowerAscii(c)}
      ensures word == old(word)
      ensures Valid() == old(Valid())
      ensures ToLowerAscii(c) in old(guesses) ==> guesses == old(guesses)
      ensures old(WrongGuesses()) <= WrongGuesses()
      ensures old(IsWon()) ==> IsWon()
      ensures old(IsLost()) ==> IsLost()
    {
      ghost var before := guesses;
      guesses := guesses + {ToLowerAscii(c)};
      WrongGuessCountMonotonic(word, before, guesses);
      OutcomesArePermanent(word, before, guesses, maxAttempts);
    }
  }
}
