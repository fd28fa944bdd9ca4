/** The rules of the Hangman game shared by both `HangmanGame` classes: the
    word list, the wrong-guess count, winning and losing, the masked word and
    the gallows pictures.  Each is a function of the word and the set of
    guessed characters; the classes in `Hangman` and `HangmanExercise` hold
    that state. */
module HangmanRules {

  /** The five words a game can be played with. */
  const WordList: seq<string> := ["apple", "banana", "orange", "grape", "lemon"]

  /** The default number of wrong guesses that loses the game. */
  const DefaultMaxAttempts := 6

  predicate IsLowerLetter(c: char)
  {
    'a' <= c <= 'z'
  }

  /** Every word is non-empty and made of lower-case letters only. */
  lemma WordListIsLowerCase()
    ensures forall w :: w in WordList ==> |w| > 0 && forall c :: c in w ==> IsLowerLetter(c)
  {
    forall w | w in WordList
      ensures |w| > 0 && forall c :: c in w ==> IsLowerLetter(c)
    {
      LowerCaseWord(w);
    }
  }

  lemma LowerCaseWord(w: string)
    requires w in WordList
    ensures |w| > 0 && forall c :: c in w ==> IsLowerLetter(c)
  {
    if w == "apple" {
      assert forall c :: c in w ==> c in {'a', 'p', 'l', 'e'};
    } else if w == "banana" {
      assert forall c :: c in w ==> c in {'b', 'a', 'n'};
    } else if w == "orange" {
      assert forall c :: c in w ==> c in {'o', 'r', 'a', 'n', 'g', 'e'};
    } else if w == "grape" {
      assert forall c :: c in w ==> c in {'g', 'r', 'a', 'p', 'e'};
    } else {
      assert forall c :: c in w ==> c in {'l', 'e', 'm', 'o', 'n'};
    }
  }

  /** `char.ToLower` restricted to ASCII: upper-case letters map to their
      lower-case counterpart, every other character is unchanged. */
  function ToLowerAscii(c: char): (l: char)
    ensures !('A' <= l <= 'Z')
    ensures 'A' <= c <= 'Z' ==> IsLowerLetter(l) && l as int - c as int == 'a' as int - 'A' as int
    ensures !('A' <= c <= 'Z') ==> l == c
  {
    if 'A' <= c <= 'Z' then (c as int - 'A' as int + 'a' as int) as char else c
  }

  /** Lower-casing twice is lower-casing once, and the two cases of a letter
      are the same guess. */
  lemma ToLowerAsciiFacts(c: char, d: char)
    ensures ToLowerAscii(ToLowerAscii(c)) == ToLowerAscii(c)
    ensures 'A' <= c <= 'Z' && d as int == c as int + 32 ==> ToLowerAscii(c) == ToLowerAscii(d) == d
  {
  }

  /** The guessed characters that do not occur in the word. */
  function WrongGuessSet(word: string, guesses: set<char>): (wrong: set<char>)
    ensures wrong <= guesses
    ensures forall g :: g in wrong <==> g in guesses && g !in word
  {
    set g | g in guesses && g !in word
  }

  /** `WrongGuesses`: how many guessed characters are absent from the word.
      Correct guesses never count, so the count is zero exactly when every
      guess is in the word. */
  function WrongGuessCount(word: string, guesses: set<char>): (n: nat)
    ensures n <= |guesses|
    ensures n == 0 <==> forall g :: g in guesses ==> g in word
  {
    var wrong := WrongGuessSet(word, guesses);
    SubsetCardinality(wrong, guesses);
    |wrong|
  }

  lemma {:induction false} SubsetCardinality<T>(a: set<T>, b: set<T>)
    requires a <= b
    ensures |a| <= |b|
  {
    if a != {} {
      var x :| x in a;
      SubsetCardinality(a - {x}, b - {x});
    }
  }

  /** More guesses never mean fewer wrong guesses. */
  lemma WrongGuessCountMonotonic(word: string, g1: set<char>, g2: set<char>)
    requires g1 <= g2
    ensures WrongGuessCount(word, g1) <= WrongGuessCount(word, g2)
  {
    SubsetCardinality(WrongGuessSet(word, g1), WrongGuessSet(word, g2));
  }

  /** A guess in the word leaves the count unchanged; a new guess outside it
      adds exactly one. */
  lemma WrongGuessCountStep(word: string, guesses: set<char>, c: char)
    ensures c in word || c in guesses ==> WrongGuessCount(word, guesses + {c}) == WrongGuessCount(word, guesses)
    ensures c !in word && c !in guesses ==> WrongGuessCount(word, guesses + {c}) == WrongGuessCount(word, guesses) + 1
  {
    if c in word || c in guesses {
      assert WrongGuessSet(word, guesses + {c}) == WrongGuessSet(word, guesses);
    } else {
      assert WrongGuessSet(word, guesses + {c}) == WrongGuessSet(word, guesses) + {c};
    }
  }

  /** `IsWon`: every letter of the word has been guessed. */
  predicate AllGuessed(word: string, guesses: set<char>)
  {
    forall i :: 0 <= i < |word| ==> word[i] in guesses
  }

  /** `IsLost`: the wrong guesses have reached the allowed number. */
  predicate OutOfAttempts(word: string, guesses: set<char>, maxAttempts: int)
  {
    WrongGuessCount(word, guesses) >= maxAttempts
  }

  /** Guessing more never undoes a win or a loss. */
  lemma OutcomesArePermanent(word: string, g1: set<char>, g2: set<char>, maxAttempts: int)
    requires g1 <= g2
    ensures AllGuessed(word, g1) ==> AllGuessed(word, g2)
    ensures OutOfAttempts(word, g1, maxAttempts) ==> OutOfAttempts(word, g2, maxAttempts)
  {
    WrongGuessCountMonotonic(word, g1, g2);
  }

  /** Winning and losing do not exclude each other: once every letter of the
      word has been guessed together with at least `maxAttempts` letters
      that are not in it, the game is both won and lost. */
  lemma WonAndLostTogether(word: string, wrong: set<char>, maxAttempts: int)
    requires forall c :: c in wrong ==> c !in word
    requires |wrong| >= maxAttempts
    ensures var guesses := (set i | 0 <= i < |word| :: word[i]) + wrong;
      AllGuessed(word, guesses) && OutOfAttempts(word, guesses, maxAttempts)
  {
    var guesses := (set i | 0 <= i < |word| :: word[i]) + wrong;
    assert forall i :: 0 <= i < |word| ==> word[i] in guesses;
    assert WrongGuessSet(word, guesses) == wrong;
  }

  /** Each letter of the word as shown: the letter once guessed, '_' before. */
  function MaskedLetters(word: string, guesses: set<char>): (r: string)
    ensures |r| == |word|
    ensures forall i :: 0 <= i < |word| ==> r[i] == (if word[i] in guesses then word[i] else '_')
  {
    if word == [] then []
    else [if word[0] in guesses then word[0] else '_'] + MaskedLetters(word[1..], guesses)
  }

  /** `string.Join(" ", chars)`: the characters with one space between
      neighbours, none before the first or after the last. */
  function JoinWithSpaces(s: string): (r: string)
    ensures s == [] ==> r == []
    ensures s != [] ==> |r| == 2 * |s| - 1
    ensures forall j :: 0 <= j < |r| ==> r[j] == if j % 2 == 0 then s[j / 2] else ' '
  {
    if |s| <= 1 then s else [s[0], ' '] + JoinWithSpaces(s[1..])
  }

  /** `GetMaskedWord`. */
  function MaskedWord(word: string, guesses: set<char>): string
  {
    JoinWithSpaces(MaskedLetters(word, guesses))
  }

  /** The masked word of a word without '_' shows no '_' exactly when the
      game is won, and a won game shows the whole word. */
  lemma {:induction false} MaskedWordShowsWin(word: string, guesses: set<char>)
    requires '_' !in word
    ensures '_' !in MaskedWord(word, guesses) <==> AllGuessed(word, guesses)
    ensures AllGuessed(word, guesses) ==> MaskedWord(word, guesses) == JoinWithSpaces(word)
    ensures word != [] ==> |MaskedWord(word, guesses)| == 2 * |word| - 1
  {
    var letters := MaskedLetters(word, guesses);
    var shown := MaskedWord(word, guesses);
    if !AllGuessed(word, guesses) {
      var i :| 0 <= i < |word| && word[i] !in guesses;
      assert shown[2 * i] == letters[i] == '_';
    } else {
      assert letters == word;
      forall j | 0 <= j < |shown|
        ensures shown[j] != '_'
      {
        if j % 2 == 0 {
          assert shown[j] == word[j / 2] && word[j / 2] in word;
        }
      }
    }
  }

  /** For the list's words the blanks of the masked word show whether the
      game is won. */
  lemma ListedWordShowsWin(word: string, guesses: set<char>)
    ensures word in WordList ==> ('_' !in MaskedWord(word, guesses) <==> AllGuessed(word, guesses))
  {
    if word in WordList {
      LowerCaseWord(word);
      MaskedWordShowsWin(word, guesses);
    }
  }

  /** More guesses never hide a letter that was shown. */
  lemma MaskedWordMonotonic(word: string, g1: set<char>, g2: set<char>)
    requires g1 <= g2
    ensures forall j :: 0 <= j < |MaskedWord(word, g1)| && MaskedWord(word, g1)[j] != '_' ==>
      MaskedWord(word, g2)[j] == MaskedWord(word, g1)[j]
  {
  }

  /** The seven gallows pictures, indexed by the number of wrong guesses. */
  const HangmanStages: seq<string> := [
    "  +---+\n  |   |\n      |\n      |\n      |\n      |\n=========",
    "  +---+\n  |   |\n  O   |\n      |\n      |\n      |\n=========",
    "  +---+\n  |   |\n  O   |\n  |   |\n      |\n      |\n=========",
    "  +---+\n  |   |\n  O   |\n /|   |\n      |\n      |\n=========",
    "  +---+\n  |   |\n  O   |\n /|\\  |\n      |\n      |\n=========",
    "  +---+\n  |   |\n  O   |\n /|\\  |\n /    |\n      |\n=========",
    "  +---+\n  |   |\n  O   |\n /|\\  |\n / \\  |\n      |\n========="
  ]

  /** `Math.Clamp(wrongGuesses, 0, HangmanStages.Length - 1)`. */
  function StageIndex(wrongGuesses: int): (idx: nat)
    ensures idx < |HangmanStages|
    ensures 0 <= wrongGuesses < |HangmanStages| ==> idx == wrongGuesses
    ensures wrongGuesses < 0 ==> idx == 0
    ensures wrongGuesses >= |HangmanStages| ==> idx == |HangmanStages| - 1
  {
    if wrongGuesses < 0 then 0
    else if wrongGuesses > |HangmanStages| - 1 then |HangmanStages| - 1
    else wrongGuesses
  }

  /** `GetHangmanAsciiArt`: the picture for the clamped count. */
  function HangmanAsciiArt(wrongGuesses: int): (art: string)
    ensures art in HangmanStages
  {
    HangmanStages[StageIndex(wrongGuesses)]
  }

  /** The pictures are all different, so the picture shown tells the clamped
      number of wrong guesses. */
  lemma AsciiArtDeterminesStage(a: int, b: int)
    ensures HangmanAsciiArt(a) == HangmanAsciiArt(b) <==> StageIndex(a) == StageIndex(b)
  {
    var i, j := StageIndex(a), StageIndex(b);
    if i < j {
      StagesDiffer(i, j);
    } else if j < i {
      StagesDiffer(j, i);
    }
  }

  lemma StagesDiffer(i: nat, j: nat)
    requires i < j < |HangmanStages|
    ensures HangmanStages[i] != HangmanStages[j]
  {
    var si, sj := HangmanStages[i], HangmanStages[j];
    // Stages differ in the head (offset 18), the body (26), the left arm
    // (25), the right arm (27), the left leg (33) or the right leg (35).
    assert si[18] != sj[18] || si[26] != sj[26] || si[25] != sj[25]
        || si[27] != sj[27] || si[33] != sj[33] || si[35] != sj[35];
  }
}
