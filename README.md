# Holiday schedule generator, Hangman rules and LINQ helpers in Dafny

This project models three parts of a .NET teaching repository and proves
properties about them.

- **Holiday schedule generator.** `HolidayScheduleGenerator.GenerateForYear`
  takes a year in 1800..9999 and a list of holiday rules. A rule is either a
  fixed date ("July 4th") or a relative weekday ("4th Thursday in
  November", "Last Monday in May"). Each rule is resolved to a date:
  - fixed dates that fall on a weekend move to the nearest weekday;
  - a day that does not exist, or an occurrence the month does not have,
    aborts the call with an error.

  The first rule to produce a date keeps it, and the call returns the
  `(date, rule)` pairs in ascending date order. `NumberUtility.ToOrdinalString`
  and `HolidayDefinition.ToDateString` produce the English text of rules and
  error messages.
- **Hangman.** `HangmanGame`, in the web-game copy with gallows pictures and
  in the exercise copy without them, is a secret word and a set of guessed
  characters. From these come the wrong-guess count, winning, losing and the
  masked word.
- **LINQ helpers.** `MyExtensions.ValuesLessThan` and `MyExtensions.IsEmpty`
  exist in two identical copies, modelled once.

The files are:

- `wrappers.dfy`: `Option` and `Result`.
- `calendar.dfy`: the proleptic Gregorian calendar that `DateOnly` implements.
  - Dates are (year, month, day) triples.
  - A closed-form day number counts from 0001-01-01 (a Monday).
  - The weekday, the next and previous day, and date order are derived
    from the day number.
- `number_utility.dfy`: decimal writing and ordinal suffixes.
- `holiday_definition.dfy`: the rule value and its description.
- `holiday_schedule_generator.dfy`: the generator.
  - The rule-resolution loops and the dictionary loop are methods.
  - Each method is proved against a closed-form reference function
    (`RelativeWeekdayDate`, `HolidayDate`, `Schedule`).
  - The properties of those reference functions are proved as lemmas.
- `hangman_rules.dfy`: the game's rules as functions of word and guesses.
- `hangman.dfy` and `hangman_exercise.dfy`: the two `HangmanGame` classes.
  `Guess` updates the guess set in place.
- `extensions.dfy`: the two LINQ helpers.

Exceptions are modelled as `Failure` values of a `Result`. The error kinds
are `GeneratorError`'s variants:
- the year is out of range;
- the rule list is null;
- the date is invalid;
- the occurrence is not found;
- the month is not a calendar month.

An aborted call returns only the first error, and no pairs.

## Model

| member | source | states |
|---|---|---|
| Calendar.DaysInMonth | projects/HolidayGenerator/HolidayGenerator.Console/HolidayScheduleGenerator.cs:78 | a month has 28 to 31 days (the bound `new DateOnly` checks the day against) |
| Calendar.DayOfWeekOf | projects/HolidayGenerator/HolidayGenerator.Console/HolidayScheduleGenerator.cs:90 | the weekday of a date is its day number plus one, modulo 7, with Sunday as 0 |
| Calendar.WeekdayInMonth | projects/HolidayGenerator/HolidayGenerator.Console/HolidayScheduleGenerator.cs:118-128 | the weekday of day d of a month is the weekday of the 1st advanced by d-1, modulo 7 |
| Calendar.NextDayAdvances | projects/HolidayGenerator/HolidayGenerator.Console/HolidayScheduleGenerator.cs:128 | `AddDays(1)` increases the day number by one and moves the weekday one on |
| Calendar.PreviousDayRetreats | projects/HolidayGenerator/HolidayGenerator.Console/HolidayScheduleGenerator.cs:109 | `AddDays(-1)` decreases the day number by one and moves the weekday one back |
| Calendar.NextAndPreviousAreInverse | projects/HolidayGenerator/HolidayGenerator.Console/HolidayScheduleGenerator.cs:101 | going back a day and forward a day returns the original date, and the other way round |
| Calendar.BeforeIsDayNumberOrder | projects/HolidayGenerator/HolidayGenerator.Console/HolidayScheduleGenerator.cs:118 | comparing dates (`<=`, `OrderBy`) is chronological order, i.e. day-number order |
| Calendar.DayNumberInjective | projects/HolidayGenerator/HolidayGenerator.Console/HolidayScheduleGenerator.cs:43 | different valid dates have different day numbers, so date keys are distinct days |
| Calendar.LastDayOfMonth | projects/HolidayGenerator/HolidayGenerator.Console/HolidayScheduleGenerator.cs:101 | the month's last day: a valid date of that month whose next day is the 1st of another month |
| Calendar.AddOneMonth | projects/HolidayGenerator/HolidayGenerator.Console/HolidayScheduleGenerator.cs:101 | `AddMonths(1)` fails exactly for December 9999 and otherwise stays within `DateOnly`'s range |
| NumberUtility.IntToString | projects/HolidayGenerator/HolidayGenerator.Console/NumberUtility.cs:23 | `int.ToString()` starts with '-' exactly for negative numbers |
| NumberUtility.NatToStringRoundTrip | projects/HolidayGenerator/HolidayGenerator.Console/NumberUtility.cs:40 | reading back the decimal string of a number gives the number |
| NumberUtility.OrdinalSuffix | projects/HolidayGenerator/HolidayGenerator.Console/NumberUtility.cs:25-38 | the suffix is two letters, one of "st", "nd", "rd", "th" |
| NumberUtility.ToOrdinalString | projects/HolidayGenerator/HolidayGenerator.Console/NumberUtility.cs:21-41 | a negative number is returned as its decimal string; otherwise the decimal string followed by a two-letter suffix |
| NumberUtility.TeensTakeTh | projects/HolidayGenerator/HolidayGenerator.Console/NumberUtility.cs:28-30 | numbers ending in 11, 12 or 13 always take "th" |
| NumberUtility.LastDigitDecidesSuffix | projects/HolidayGenerator/HolidayGenerator.Console/NumberUtility.cs:31-37 | outside the teens, a written last digit 1, 2, 3 takes "st", "nd", "rd", any other "th" |
| NumberUtility.ToOrdinalStringInjective | projects/HolidayGenerator/HolidayGenerator.Console/NumberUtility.cs:21-41 | different numbers give different ordinal strings |
| NumberUtility.OrdinalExamplesSmall | projects/HolidayGenerator/HolidayGenerator.Console/NumberUtility.cs:10 | the documented 1st, 2nd, 3rd, 4th, and 0th for zero and "-5" for -5 |
| NumberUtility.OrdinalExamplesTeens | projects/HolidayGenerator/HolidayGenerator.Console/NumberUtility.cs:28-30 | 11th, 12th and 13th |
| NumberUtility.OrdinalExampleHundreds | projects/HolidayGenerator/HolidayGenerator.Console/NumberUtility.cs:28-30 | 112th: the teens rule looks at the last two digits |
| NumberUtility.OrdinalExamplesTwenties | projects/HolidayGenerator/HolidayGenerator.Console/NumberUtility.cs:31-37 | 21st, 22nd and 23rd |
| HolidayDefinitions.HolidayDefinition.OptionalDayOfWeek | exercises/2.1-copilot-basics/project/HolidayGenerator/HolidayDefinition.cs:55 | the nullable day of week has a value exactly for relative-weekday rules |
| HolidayDefinitions.NewHolidayDefinition | exercises/2.1-copilot-basics/project/HolidayGenerator/HolidayDefinition.cs:29-37 | the four-argument constructor keeps name, month and day; the rule is relative exactly when a weekday is given |
| HolidayDefinitions.NewFixedHolidayDefinition | exercises/2.1-copilot-basics/project/HolidayGenerator/HolidayDefinition.cs:11-13 | the three-argument constructor assigns nothing: null name, month 0, day 0, no weekday |
| HolidayDefinitions.FixedConstructorIgnoresArguments | exercises/2.1-copilot-basics/project/HolidayGenerator/HolidayDefinition.cs:11-13 | all three-argument constructions give the same rule whatever the arguments |
| HolidayDefinitions.IntendedFixedHolidayDefinition | exercises/2.1-copilot-basics/project/HolidayGenerator/HolidayDefinition.cs:3-10 | the documented fixed-date rule: the four-argument constructor with no weekday |
| HolidayDefinitions.FixedConstructorExample | exercises/2.1-copilot-basics/project/HolidayGenerator/HolidayDefinition.cs:6 | the documented Independence Day example describes itself as "0 0th" as written and "July 4th" as intended |
| HolidayDefinitions.ToDateString | exercises/2.1-copilot-basics/project/HolidayGenerator/HolidayDefinition.cs:61-70 | "Last W in M" for day -1, "Nth W in M" for other relative rules, "M Nth" for fixed rules |
| HolidayDefinitions.MonthNamesDistinct | exercises/2.1-copilot-basics/project/HolidayGenerator/HolidayDefinition.cs:66 | the twelve month names are distinct and contain no space |
| HolidayDefinitions.FixedDescriptionDeterminesDate | exercises/2.1-copilot-basics/project/HolidayGenerator/HolidayDefinition.cs:69 | two fixed rules with the same description have the same month and day |
| HolidayScheduleGenerator.ValidateInputs | projects/HolidayGenerator/HolidayGenerator.Console/HolidayScheduleGenerator.cs:54-65 | an out-of-range year is the error even for a null list; in range, a null list is the only error |
| HolidayScheduleGenerator.AdjustForWeekend | projects/HolidayGenerator/HolidayGenerator.Console/HolidayScheduleGenerator.cs:88-96 | Saturday becomes the previous Friday, Sunday the next Monday, other days stay; the result is never a weekend day |
| HolidayScheduleGenerator.SaturdayStepsBack | projects/HolidayGenerator/HolidayGenerator.Console/HolidayScheduleGenerator.cs:92 | a Saturday in `DateOnly`'s range is not 0001-01-01, and the day before it is an in-range Friday |
| HolidayScheduleGenerator.SundayStepsForward | projects/HolidayGenerator/HolidayGenerator.Console/HolidayScheduleGenerator.cs:93 | a Sunday in `DateOnly`'s range is not 9999-12-31, and the day after it is an in-range Monday |
| HolidayScheduleGenerator.GenerateFixedDateHoliday | projects/HolidayGenerator/HolidayGenerator.Console/HolidayScheduleGenerator.cs:74-86 | succeeds exactly when the day exists, otherwise an invalid-date error naming the rule; a Saturday moves to the Friday before, a Sunday to the Monday after, and any other day is returned unchanged, so the result is a weekday at most one day away |
| HolidayScheduleGenerator.WeekdayMatches | projects/HolidayGenerator/HolidayGenerator.Console/HolidayScheduleGenerator.cs:120 | a day of the month falls on the weekday exactly when it is a whole number of weeks after the first such day |
| HolidayScheduleGenerator.OccurrencesStep | projects/HolidayGenerator/HolidayGenerator.Console/HolidayScheduleGenerator.cs:120-122 | counting one more day adds one exactly when that day is on the weekday |
| HolidayScheduleGenerator.OccurrencesClosedForm | projects/HolidayGenerator/HolidayGenerator.Console/HolidayScheduleGenerator.cs:115-127 | the occurrence counter after d days equals the number of whole weeks from the first occurrence up to d |
| HolidayScheduleGenerator.FourOrFiveOccurrences | projects/HolidayGenerator/HolidayGenerator.Console/HolidayScheduleGenerator.cs:118-129 | every weekday occurs four or five times in a month |
| HolidayScheduleGenerator.NthOccurrenceIsCounted | projects/HolidayGenerator/HolidayGenerator.Console/HolidayScheduleGenerator.cs:115-132 | the nth occurrence lies in the month exactly when the month has n occurrences; it is the only day where the count reaches n |
| HolidayScheduleGenerator.LastOccurrenceIsLast | projects/HolidayGenerator/HolidayGenerator.Console/HolidayScheduleGenerator.cs:104-111 | the last occurrence is in the final week of the month, on the weekday, and no later day is |
| HolidayScheduleGenerator.GenerateRelativeWeekdayHoliday | projects/HolidayGenerator/HolidayGenerator.Console/HolidayScheduleGenerator.cs:98-133 | with the end of month of line 101 corrected (see Findings): a month outside 1..12 is an error; day -1 gives the last occurrence, another day the nth occurrence or the not-found error, as `RelativeWeekdayDate` defines |
| HolidayScheduleGenerator.WalkBackToWeekday | projects/HolidayGenerator/HolidayGenerator.Console/HolidayScheduleGenerator.cs:104-112 | stepping back from the month's last day stops at the last occurrence of the weekday |
| HolidayScheduleGenerator.CountForwardToOccurrence | projects/HolidayGenerator/HolidayGenerator.Console/HolidayScheduleGenerator.cs:115-129 | counting forward from the 1st stops at the nth occurrence when the month has one, and runs past the month's end otherwise; the last step is not range-checked (see Findings) |
| HolidayScheduleGenerator.NthOccurrenceFound | projects/HolidayGenerator/HolidayGenerator.Console/HolidayScheduleGenerator.cs:123-126 | the day on the weekday where the count reaches n is the nth occurrence |
| HolidayScheduleGenerator.NthOccurrenceMissing | projects/HolidayGenerator/HolidayGenerator.Console/HolidayScheduleGenerator.cs:131-132 | when the whole month counts fewer than n occurrences (or n < 1) there is no nth occurrence |
| HolidayScheduleGenerator.GenerateHolidayDate | projects/HolidayGenerator/HolidayGenerator.Console/HolidayScheduleGenerator.cs:67-72 | rules with a weekday are resolved as relative rules, others as fixed dates |
| HolidayScheduleGenerator.ResolveAll | projects/HolidayGenerator/HolidayGenerator.Console/HolidayScheduleGenerator.cs:45-49 | a successful resolution has one date per rule |
| HolidayScheduleGenerator.ResolveAllMeaning | projects/HolidayGenerator/HolidayGenerator.Console/HolidayScheduleGenerator.cs:45-49 | resolving in order succeeds exactly when every rule does, with each rule's date; otherwise the first failing rule's error |
| HolidayScheduleGenerator.ResolvedDates | projects/HolidayGenerator/HolidayGenerator.Console/HolidayScheduleGenerator.cs:47 | a successful resolution holds each rule's own date at the rule's position |
| HolidayScheduleGenerator.FirstFailure | projects/HolidayGenerator/HolidayGenerator.Console/HolidayScheduleGenerator.cs:47 | resolution fails only with the error of a rule all of whose predecessors resolved |
| HolidayScheduleGenerator.ResolveAllPrefix | projects/HolidayGenerator/HolidayGenerator.Console/HolidayScheduleGenerator.cs:47 | an error among the first rules aborts the whole call with that error |
| HolidayScheduleGenerator.ResolveFailureStep | projects/HolidayGenerator/HolidayGenerator.Console/HolidayScheduleGenerator.cs:47 | a rule that fails after its predecessors resolved fails the whole schedule with its own error |
| HolidayScheduleGenerator.ResolveSuccessStep | projects/HolidayGenerator/HolidayGenerator.Console/HolidayScheduleGenerator.cs:47 | a rule that resolves after its predecessors extends their dates by its own |
| HolidayScheduleGenerator.FirstClaimsStep | projects/HolidayGenerator/HolidayGenerator.Console/HolidayScheduleGenerator.cs:48 | `TryAdd` of a date already present keeps the dictionary; a new date is added with its rule |
| HolidayScheduleGenerator.FirstClaims | projects/HolidayGenerator/HolidayGenerator.Console/HolidayScheduleGenerator.cs:43-49 | the dictionary's keys are exactly the resolved dates |
| HolidayScheduleGenerator.FirstClaimWins | projects/HolidayGenerator/HolidayGenerator.Console/HolidayScheduleGenerator.cs:48 | `TryAdd` keeps the first rule to produce a date |
| HolidayScheduleGenerator.InsertByDate | projects/HolidayGenerator/HolidayGenerator.Console/HolidayScheduleGenerator.cs:51 | inserting a new date keeps the listing in strictly increasing date order, adding exactly that entry |
| HolidayScheduleGenerator.OrderByDate | projects/HolidayGenerator/HolidayGenerator.Console/HolidayScheduleGenerator.cs:51 | the output lists exactly the dictionary's pairs, in strictly increasing date order |
| HolidayScheduleGenerator.ListingUnique | projects/HolidayGenerator/HolidayGenerator.Console/HolidayScheduleGenerator.cs:51 | there is only one ordered listing of a dictionary, so the output is determined |
| HolidayScheduleGenerator.GenerateForYear | projects/HolidayGenerator/HolidayGenerator.Console/HolidayScheduleGenerator.cs:39-52 | with relative rules resolved as corrected in Findings: fails exactly when `Schedule` does, with its error; otherwise returns the ordered listing of `Schedule`'s dictionary |
| HolidayScheduleGenerator.YearCheckedFirst | projects/HolidayGenerator/HolidayGenerator.Console/HolidayScheduleGenerator.cs:56-59 | a year outside 1800..9999 is the error whatever the rule list is |
| HolidayScheduleGenerator.NullAndEmptyRuleLists | projects/HolidayGenerator/HolidayGenerator.Console/HolidayScheduleGenerator.cs:61-64 | in range, a null list is the null-argument error and an empty list gives an empty schedule |
| HolidayScheduleGenerator.ScheduleEntries | projects/HolidayGenerator/HolidayGenerator.Console/HolidayScheduleGenerator.cs:45-49 | every rule's date is scheduled; each scheduled date is paired with the earliest rule producing it, and is that rule's date |
| HolidayScheduleGenerator.FixedDateExamples | projects/HolidayGenerator/HolidayGenerator.Console/HolidayScheduleGenerator.cs:88-96 | Christmas 2021 is observed on 24 Dec, New Year 2022 on 31 Dec 2021, 4 July 2023 stays, 30 February is invalid |
| HolidayScheduleGenerator.LastMondayExample | projects/HolidayGenerator/HolidayGenerator.Console/HolidayScheduleGenerator.cs:104-112 | the last Monday of May 2024 is the 27th |
| HolidayScheduleGenerator.FourthThursdayExample | projects/HolidayGenerator/HolidayGenerator.Console/HolidayScheduleGenerator.cs:115-129 | the 4th Thursday of November 2023 is the 23rd |
| HolidayScheduleGenerator.MissingOccurrenceExample | projects/HolidayGenerator/HolidayGenerator.Console/HolidayScheduleGenerator.cs:131-132 | April 2024 has no 6th Monday, which is the not-found error |
| HolidayScheduleGenerator.YearBoundaryExamples | projects/HolidayGenerator/HolidayGenerator.Console/HolidayScheduleGenerator.cs:13-14 | 1799 and 10000 are rejected, 1800 and 9999 accepted |
| HolidayScheduleGenerator.EndOfMonthAsWritten | projects/HolidayGenerator/HolidayGenerator.Console/HolidayScheduleGenerator.cs:101 | the end of month via "first of month plus a month minus a day" exists exactly outside December 9999 |
| HolidayScheduleGenerator.EndOfMonthFailsInDecember9999 | projects/HolidayGenerator/HolidayGenerator.Console/HolidayScheduleGenerator.cs:101 | year 9999 passes validation but its December's end cannot be computed that way |
| HolidayScheduleGenerator.EndOfMonthAgrees | projects/HolidayGenerator/HolidayGenerator.Console/HolidayScheduleGenerator.cs:101 | wherever that computation succeeds it gives `LastDayOfMonth` |
| HolidayScheduleGenerator.ForwardWalkLeavesRange | projects/HolidayGenerator/HolidayGenerator.Console/HolidayScheduleGenerator.cs:118-128 | December 9999 has four Mondays, so a walk for a fifth one steps from 31 December 9999 to 1 January 10000, outside `DateOnly`'s range |
| HolidayScheduleGenerator.MissingOccurrenceInDecember9999 | projects/HolidayGenerator/HolidayGenerator.Console/HolidayScheduleGenerator.cs:118-132 | with the walk bounded by the month, a missing fifth Monday of December 9999 is the not-found error |
| HolidayScheduleGenerator.December9999Resolves | projects/HolidayGenerator/HolidayGenerator.Console/HolidayScheduleGenerator.cs:98-133 | with the direct end of month, the last Friday of December 9999 is 31 December 9999 |
| HolidayScheduleGenerator.FixedConstructorRuleFails | exercises/2.1-copilot-basics/project/HolidayGenerator/HolidayDefinition.cs:11-13 | a three-argument rule always fails as an invalid date (month 0, day 0); the intended rule succeeds for a real date |
| HangmanRules.WordListIsLowerCase | projects/Hangman/Models/HangmanGame.cs:5 | every word of the list is non-empty and lower-case |
| HangmanRules.LowerCaseWord | exercises/4.1-instructions/project/Models/HangmanGame.cs:5 | each listed word is non-empty and made of lower-case letters |
| HangmanRules.ToLowerAscii | projects/Hangman/Models/HangmanGame.cs:47 | upper-case letters become the matching lower-case letter; other characters are unchanged |
| HangmanRules.ToLowerAsciiFacts | exercises/4.1-instructions/project/Models/HangmanGame.cs:21 | lower-casing is idempotent, and both cases of a letter are the same guess |
| HangmanRules.WrongGuessCount | exercises/4.1-instructions/project/Models/HangmanGame.cs:9 | the count is at most the number of guesses, and zero exactly when every guess is in the word |
| HangmanRules.WrongGuessCountMonotonic | projects/Hangman/Models/HangmanGame.cs:9 | more guesses never give fewer wrong guesses |
| HangmanRules.WrongGuessCountStep | projects/Hangman/Models/HangmanGame.cs:45-48 | a repeated or correct guess leaves the count; a new wrong guess adds one |
| HangmanRules.OutcomesArePermanent | exercises/4.1-instructions/project/Models/HangmanGame.cs:10-11 | more guesses never undo a win or a loss |
| HangmanRules.WonAndLostTogether | projects/Hangman/Models/HangmanGame.cs:10-11 | a game whose guesses cover the word and include at least the allowed number of absent letters is both won and lost |
| HangmanRules.MaskedLetters | projects/Hangman/Models/HangmanGame.cs:52 | each letter is shown once guessed and '_' before |
| HangmanRules.JoinWithSpaces | exercises/4.1-instructions/project/Models/HangmanGame.cs:26 | the joined string has length 2n-1, characters at even positions and spaces at odd ones |
| HangmanRules.MaskedWordShowsWin | projects/Hangman/Models/HangmanGame.cs:50-53 | for a word without '_', the masked word has no '_' exactly when the game is won; a won game shows the spaced word |
| HangmanRules.ListedWordShowsWin | exercises/4.1-instructions/project/Models/HangmanGame.cs:24-27 | for the list's words, blanks in the masked word tell whether the game is won |
| HangmanRules.MaskedWordMonotonic | projects/Hangman/Models/HangmanGame.cs:52 | a shown letter stays shown as guesses are added |
| HangmanRules.StageIndex | projects/Hangman/Models/HangmanGame.cs:41 | the stage index is the wrong-guess count clamped to 0..6, always a valid index |
| HangmanRules.HangmanAsciiArt | projects/Hangman/Models/HangmanGame.cs:39-43 | the picture is one of the seven stages |
| HangmanRules.AsciiArtDeterminesStage | projects/Hangman/Models/HangmanGame.cs:15-31 | the seven pictures are distinct, so the picture tells the clamped count |
| Hangman.HangmanGame.constructor | projects/Hangman/Models/HangmanGame.cs:33-37 | a new game has the picked list word, no guesses and six attempts |
| Hangman.HangmanGame.WrongGuesses | projects/Hangman/Models/HangmanGame.cs:9 | zero exactly when every guess is in the word, never above the number of guesses |
| Hangman.HangmanGame.IsWon | projects/Hangman/Models/HangmanGame.cs:10 | in a game with a list word, won exactly when the masked word has no blank |
| Hangman.HangmanGame.GetHangmanAsciiArt | projects/Hangman/Models/HangmanGame.cs:13 | the stage for the wrong-guess count, the full figure from six on |
| Hangman.HangmanGame.GetMaskedWord | projects/Hangman/Models/HangmanGame.cs:50-53 | length 2n-1, letters or '_' at even positions, spaces between |
| Hangman.HangmanGame.Guess | projects/Hangman/Models/HangmanGame.cs:45-48 | adds the lower-cased character and nothing else; repeated guesses change nothing; wrong count, win and loss never go back |
| HangmanExercise.HangmanGame.constructor | exercises/4.1-instructions/project/Models/HangmanGame.cs:13-17 | a new game has the picked list word and no guesses |
| HangmanExercise.HangmanGame.WrongGuesses | exercises/4.1-instructions/project/Models/HangmanGame.cs:9 | zero exactly when every guess is in the word, never above the number of guesses |
| HangmanExercise.HangmanGame.IsWon | exercises/4.1-instructions/project/Models/HangmanGame.cs:10 | in a game with a list word, won exactly when the masked word has no blank |
| HangmanExercise.HangmanGame.IsLost | exercises/4.1-instructions/project/Models/HangmanGame.cs:11 | lost exactly when six or more guesses are wrong |
| HangmanExercise.HangmanGame.GetMaskedWord | exercises/4.1-instructions/project/Models/HangmanGame.cs:24-27 | length 2n-1, letters or '_' at even positions, spaces between |
| HangmanExercise.HangmanGame.Guess | exercises/4.1-instructions/project/Models/HangmanGame.cs:19-22 | adds the lower-cased character; repeated guesses change nothing; wrong count, win and loss never go back |
| Extensions.ValuesLessThan | projects/DotNet10Extensions/ExtensionMethods.cs:6-7 | keeps exactly the values below the threshold, each as often as in the input, and is no longer than the input |
| Extensions.ValuesLessThanKeepsOrder | exercises/2.2-copilot-context/project/ExtensionMethods.cs:3-4 | the result is a subsequence of the input |
| Extensions.ValuesLessThanIdempotent | projects/DotNet10Extensions/ExtensionMethods.cs:6-7 | filtering twice with one threshold is filtering once |
| Extensions.ValuesLessThanAppend | exercises/2.2-copilot-context/project/ExtensionMethods.cs:3-4 | filtering a concatenation concatenates the filtered parts |
| Extensions.ThresholdExcluded | projects/DotNet10Extensions/ExtensionMethods.cs:7 | a value equal to the threshold is dropped |
| Extensions.IsEmpty | exercises/2.2-copilot-context/project/ExtensionMethods.cs:6-7 | true exactly for the empty sequence |
| Extensions.EmptyFilter | projects/DotNet10Extensions/ExtensionMethods.cs:12-13 | the filtered sequence is empty exactly when no value is below the threshold |

## Left out

- Console input and output are not part of this model: the two `Program.cs`
  loops that read a year and print the schedule.
- The error messages' text is not modelled. Each `GeneratorError` variant
  carries the values its `throw` interpolates (name, year, month, day,
  occurrence, weekday), but not the string built from them.
- The distinction between .NET exception types is kept only as
  `GeneratorError` variants.
- A relative rule whose month is outside 1..12 makes the `DateOnly`
  constructor at line 100 throw `ArgumentOutOfRangeException`, which
  escapes uncaught. The model returns a `MonthOutOfRange` failure instead,
  so the case stays an error outcome and is not a precondition.
- The `Month` enum's declaration is not part of this model. It is taken to
  be January = 1 through December = 12, and an undefined value prints as its
  number.
- HolidayDefinitions.HolidayDefinition: the exercise's `HolidayDefinition.cs`
  assigns `Name = name` at line 33 but declares no `Name` property. The
  model's `name` field is the string property that assignment and the
  generator's `holiday.Name` (lines 84 and 132 of
  `HolidayScheduleGenerator.cs`) presuppose: set by the four-argument
  constructor and read-only afterwards, like `Day` and `Month`.
- A null holiday name is the empty string, which is how the interpolation
  prints it.
- The `format` argument of `ToOrdinalString` is not modelled, because it
  depends on culture-specific number formatting. Only the default
  (`format == null`) is modelled.
- NumberUtility.IntToString: always writes '-' for a negative number.
  `ToString(null)` uses the current culture's negative sign, so the model
  matches only cultures whose sign is '-' (such as the invariant culture).
- `DateOnly` is reimplemented as (year, month, day) with a closed-form day
  number. Its internal representation is not modelled. Range checks are
  modelled for construction, `AddMonths(1)` (`AddOneMonth`) and the weekend
  moves of `AdjustForWeekend`. The day steps of the two relative-rule
  walks use the unbounded `NextDay` and `PreviousDay`.
- HolidayScheduleGenerator.GenerateRelativeWeekdayHoliday: follows the
  corrected end of month of line 101 (`LastDayOfMonth`), so in December 9999
  it returns a date or the not-found error where the code as written throws
  at line 101. The forward walk's last `AddDays(1)` at line 128 is not
  range-checked: for a missing occurrence in December 9999 it would throw
  even with line 101 fixed. The model returns the not-found error, as
  recorded under Findings.
- A null element inside a non-null rule list makes `holiday.DayOfWeek` at
  line 69 of `HolidayScheduleGenerator.cs` throw `NullReferenceException`. A rule list is a
  `seq<HolidayDefinition>`, which cannot hold a null, so only a null list
  (`Option`) is modelled.
- A `DayOfWeek` value outside Sunday..Saturday (an undefined enum value cast
  in) is accepted by the source. The model's `DayOfWeek` has exactly the
  seven days. For such a rule with day -1 the source walks back until
  `AddDays(-1)` leaves the range and throws; with another day it reports
  not-found.
- Machine integer widths are not modelled, because no arithmetic in the
  core can overflow. A caller may pass any `int` as a rule's month or day,
  including `int.MaxValue`, but those values only reach the `DateOnly`
  constructor, which rejects them, and `% 10` and `% 100` in
  `ToOrdinalString`, which cannot wrap. Years are range-checked before use,
  the occurrence counter is at most 5, and the Hangman counts are bounded by
  the number of distinct guesses.
- `char.ToLower` is culture-sensitive. The model lower-cases ASCII letters
  only.
- The `Random` word pick in both Hangman constructors is the constructor
  parameter `pick`.
- Session storage, controllers and routing of the Hangman web game are not
  part of this model.
- `HashSet<char>` is a mathematical set.
- Hangman.HangmanGame.IsLost: no contract. It is `OutOfAttempts` of the
  current state, and the properties are stated on `OutOfAttempts` and on
  `Guess`.
- `IEnumerable` arguments are finite sequences. Deferred execution of
  `Select` and `OrderBy` in `GenerateForYear` is not observable, because the
  dictionary is filled before the ordering and is not changed afterwards.
- Extensions.ValuesLessThan: models the filter on a snapshot of the source
  taken when the method is called. The source returns a lazy
  `source.Where(...)`. A caller that changes the source before enumerating
  the result, or enumerates it again after a change, sees the source's
  contents at enumeration time. For example, adding 2 to `[1, 5]` after
  calling `ValuesLessThan(3)` makes the result enumerate as 1, 2, not 1.
  `IsEmpty` (`Any()`) enumerates at once, so it reads the source at the
  call.
- A null `IEnumerable` passed to the extension methods is not modelled.

## Findings

| source | as written | input that shows it | evidently intended | confidence | as-written member | corrected member |
|---|---|---|---|---|---|---|
| projects/HolidayGenerator/HolidayGenerator.Console/HolidayScheduleGenerator.cs:101 | the end of the month is found as the first of the month plus one month minus one day | any relative rule in December of year 9999, which passes the year check: `AddMonths(1)` leaves `DateOnly`'s range and throws | the last day of the month, 31 December 9999, so the rule resolves like any other month | not executed | HolidayScheduleGenerator.EndOfMonthAsWritten | Calendar.LastDayOfMonth |
| projects/HolidayGenerator/HolidayGenerator.Console/HolidayScheduleGenerator.cs:118-128 | the forward walk steps to the next day before it tests the month's bound again | the 5th Monday of December 9999 (it has four): once line 101 is corrected, `AddDays(1)` from 31 December 9999 leaves `DateOnly`'s range and throws instead of reaching the not-found error | the walk ends at the month's last day, and a missing occurrence is the not-found error as in any other month | not executed | HolidayScheduleGenerator.ForwardWalkLeavesRange | HolidayScheduleGenerator.MissingOccurrenceInDecember9999 |
| exercises/2.1-copilot-basics/project/HolidayGenerator/HolidayDefinition.cs:11-13 | the three-argument constructor has an empty body and stores nothing | `HolidayDefinition("Independence Day", Month.July, 4)` describes itself as "0 0th", and generating it fails as an invalid date | a fixed-date rule storing name, month and day, as its documentation's example says | not executed | HolidayDefinitions.NewFixedHolidayDefinition | HolidayDefinitions.IntendedFixedHolidayDefinition |
