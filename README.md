# Mastermind: the clue, the minimax code breaker and the game rules

This project models the core of a terminal Mastermind game written in Ruby (`mastermind.rb`).
The model covers three parts.

- **The clue.** Class `Clue` marks a guess against a code. It counts the symbols the two lists share. It removes one from a symbol's count for each of its exact matches. It then walks the positions in order and gives a "right number, wrong place" peg to a non-exact position while that symbol's count is positive. The result is the list of pegs in position order.
- **The computer code breaker.** Class `ComputerCodeBreaker` enumerates the 6^4 codes and opens with 1-1-2-2. On each later turn it keeps the candidates whose clue against its last guess equals the clue it received. It scores every code by the size of its worst clue partition of the candidates. It then plays the first minimum-score code that is still a candidate, or else the first minimum-score code.
- **The game rules.** These are input validation, the two win tests, the turn counter and the game loop, with the computer breaking a given secret.

Files:

- `ruby_arrays.dfy` (`RubyArrays`): the Ruby library behaviour the game relies on. This is `filter.length`, `compact`, the ordered intersection `&`, `min`, `max`, and a `Hash.new(0)` read.
- `codes.dfy` (`Codes`): the code space and `all_possible_codes`.
- `clues.dfy` (`Clues`): the clue as a specification function `ClueOf`, its properties, and class `Clue` as the step-by-step computation proved equal to it.
- `code_breaker.dfy` (`CodeBreaker`): filtering, scoring and the choice of the next guess as functions, their properties, and class `ComputerCodeBreaker` with its methods proved against them.
- `game.dfy` (`Game`): validation, the win tests, classes `Board` and `Game`, and the loop.

The peg is the datatype `Peg = Exact | Partial`, in place of the two coloured strings. A clue is a `seq<Peg>`. The Ruby code compares clues with `==`, so their order matters, and the model keeps it.

The Ruby hashes that the methods fill in place are modelled as follows:

- The symbol counters of `Clue` are a `map<int, int>` read with a default of 0.
- The per-position table of `Clue` is a `seq` of records indexed by position.
- The clue counters of `score_potential_guesses` are a `map<seq<Peg>, int>`.
- The score table keyed by code is a list parallel to the initial set. This is faithful because the initial set has no repeated code, so a Ruby Hash keeps one entry per code, in the same order.

Three behaviours of the code are worth knowing:

- The clue is an ordered list of pegs in guess-position order, unlike the (black, white) count pair of the usual rules. So `ClueOf(g, c)` and `ClueOf(c, g)` can differ as lists; `PartialBeforeExact` and `ExactBeforePartial` show one such pair. The two clues always hold the same numbers of each peg (`ClueCountsSymmetric`).
- Repeated symbols are marked exact first: guess 1-1-2-3 against code 1-2-2-4 matches exactly at positions 0 and 2, and the counters of 1 and 2 are then used up, so the clue is two Exact pegs (`RepeatedSymbolsExample`).
- With no candidates left, the code handles the case rather than excluding it. `values.max` and `values.min` are then nil. The model reads that nil as 0, so every code scores 0.

## Model

| member | source | states |
|---|---|---|
| RubyArrays.Count | mastermind.rb:361-362 | the number of elements equal to a value is at most the length |
| RubyArrays.CountIsMultiplicity | mastermind.rb:361-362 | counting agrees with the multiplicity in the multiset of the list |
| RubyArrays.CountAppend | mastermind.rb:361-362 | counting distributes over concatenation |
| RubyArrays.CountAll | mastermind.rb:361-362 | in a list whose every element is x, all of them count |
| RubyArrays.Compact | mastermind.rb:420-422 | `compact` never lengthens the list |
| RubyArrays.CompactAppend | mastermind.rb:420-422 | `compact` distributes over concatenation, so it keeps the order of the present values |
| RubyArrays.Intersection | mastermind.rb:355-357 | `a & b` holds exactly the elements in both lists, each once |
| RubyArrays.IntersectionHead | mastermind.rb:248 | the first element of `a & b` is the first element of `a` that occurs in `b` |
| RubyArrays.Lookup | mastermind.rb:393-404 | the read of a `Hash.new(0)`: the stored value of a present key, 0 for a missing one |
| RubyArrays.MinOf | mastermind.rb:240 | the minimum is an element of a non-empty list and bounds every element from below |
| RubyArrays.MaxOf | mastermind.rb:227 | the maximum is an element of a non-empty list, bounds every element from above, and is 0 for the empty list |
| Codes.Range | mastermind.rb:203 | `Array(min..max)` has max-min+1 elements, and element i is min+i |
| Codes.AllCodesLength | mastermind.rb:202-206 | there are \|symbols\|^n codes of length n |
| Codes.AllCodesMembers | mastermind.rb:202-206 | a list is enumerated exactly when it has length n and every element is one of the symbols |
| Codes.AllCodesSorted | mastermind.rb:202-206 | for increasing symbols, the enumeration is strictly increasing in lexicographic order, so no code repeats |
| Codes.AllCodes | mastermind.rb:204 | the codes `repeated_permutation` yields: every length-n list over the symbols, the first position varying slowest |
| Codes.CodeSpace | mastermind.rb:202-206 | for min <= max, the codes over min..max number (max-min+1)^n, are sorted and repeat none, start with min repeated n times, and are exactly the codes over min..max |
| Codes.GameCodeSpace | mastermind.rb:202-206 | the game's code space has 1296 codes in strict lexicographic order, the first being 1-1-1-1 |
| Codes.GameCodeLengths | mastermind.rb:202-206 | every code of the game's code space has four symbols |
| Codes.FirstCode | mastermind.rb:202-206 | the first code repeats the first symbol |
| Codes.AllPossibleCodes | mastermind.rb:202-206 | pushing every repeated permutation after the numbers, then removing the numbers, leaves exactly the enumeration of codes and no bare number; it is non-empty when min <= max, and every code has the requested length |
| Clues.ExactAt | mastermind.rb:377-379 | `number_and_position_true?`: guess position i holds the code's symbol there; a position past the end of the code (nil) never matches |
| Clues.MarkAt | mastermind.rb:406-414 | a position earns Exact exactly when it is an exact match, and earns Partial only at a non-exact position whose symbol still has a positive counter after the exact matches |
| Clues.ClueOf | mastermind.rb:339-343 | the clue `return_clues` gives: the position pegs in position order with the nils removed, at most one per guess position |
| Clues.Marks | mastermind.rb:406-418 | one entry per guess position |
| Clues.PegCounts | mastermind.rb:381-421 | the clue has one Exact peg per exact position and one Partial peg per position marked Partial |
| Clues.ClueAccounting | mastermind.rb:355-421 | with E the multiset of exactly matched symbols, the clue has \|E\| Exact pegs and \|(guess - E) * (code - E)\| Partial pegs; its length is the sum over symbols of min(count in guess, count in code), which is at most the length of the guess and of the code |
| Clues.SymbolAccounting | mastermind.rb:359-404 | for each symbol, its exact matches fit within both counts, and its Partial pegs number min(count in guess, count in code) minus its exact matches |
| Clues.PartialMultiset | mastermind.rb:359-404 | the symbols marked Partial are the multiset intersection of what the exact matches leave of the guess and of the code |
| Clues.QuotaBounds | mastermind.rb:381-404 | the counter left after the exact matches is never negative, and it never exceeds the symbol's non-exact occurrences in the guess |
| Clues.PegKinds | mastermind.rb:406-421 | a list of pegs is as long as its Exact count plus its Partial count, as there is no third kind |
| Clues.ClueSelf | mastermind.rb:339-343 | a guess against itself earns one Exact peg per position |
| Clues.ClueAllExact | mastermind.rb:339-421 | for equal lengths, the clue is all Exact pegs, one per position, exactly when the guess is the code |
| Clues.ExactSymbolsBound | mastermind.rb:377-385 | at most k of the first k positions match exactly, and all k do only when each one matches |
| Clues.PartialSymbolInCode | mastermind.rb:387-414 | a Partial peg goes only to a non-exact position whose symbol occurs in the code |
| Clues.ExactSymbolsSwap | mastermind.rb:377-379 | for equal lengths, the exact matches are the same whichever side is the code |
| Clues.ClueCountsSymmetric | mastermind.rb:339-421 | for equal lengths, swapping guess and code keeps the multiset of pegs |
| Clues.PartialBeforeExact | mastermind.rb:406-421 | guess 1-2-3-4 against code 5-6-3-1 gives Partial then Exact |
| Clues.ExactBeforePartial | mastermind.rb:406-421 | guess 5-6-3-1 against code 1-2-3-4 gives Exact then Partial |
| Clues.RulesExample | mastermind.rb:28-30 | guess 1-4-6-3 against code 1-3-4-1 gives Exact, Partial, Partial |
| Clues.RepeatedSymbolsExample | mastermind.rb:359-414 | guess 1-1-2-3 against code 1-2-2-4 gives Exact, Exact |
| Clues.ExactCounterStep | mastermind.rb:381-404 | one step of `subtract_true_true_values` turns the counters after i positions into the counters after i+1 |
| Clues.LooseCountersStart | mastermind.rb:381-391 | the counters left by `subtract_true_true_values` are the starting counters of `evaluate_unknown_numbers` |
| Clues.LooseCountersNonNegative | mastermind.rb:393-404 | once every position has drawn on them, no counter is negative: a non-exact position takes from its symbol's counter only while that counter is positive |
| Clues.AfterExactNonNegative | mastermind.rb:381-385 | at every step of `subtract_true_true_values` each counter is non-negative, as a symbol's exact matches so far never exceed its common count |
| Clues.LooseCounterStep | mastermind.rb:387-404 | one step of `evaluate_unknown_numbers` turns the counters after i positions into the counters after i+1 |
| Clues.Clue.constructor | mastermind.rb:334-337 | a new clue object holds the guess and the code and nothing else |
| Clues.Clue.ReturnClues | mastermind.rb:339-343 | the pegs returned are `ClueOf(guess, code)`; the table and the counters are left as `process_guess` fills them in |
| Clues.Clue.ProcessGuess | mastermind.rb:347-353 | afterwards every position's table entry holds its match flags and the peg `MarkAt` gives it, and each counter holds what the non-exact positions leave of it |
| Clues.Clue.CountCommonNumbers | mastermind.rb:355-366 | the counters hold exactly the symbols in both lists, each with min(count in guess, count in code) |
| Clues.Clue.BuildIndexHash | mastermind.rb:368-375 | one entry per guess position with its guess value, its code value (nil past the end of the code) and whether it matches exactly |
| Clues.Clue.SubtractTrueTrueValues | mastermind.rb:381-385 | afterwards each symbol's counter is its common count minus its exact matches |
| Clues.Clue.EvaluateUnknownNumbers | mastermind.rb:387-391 | afterwards every position is flagged "number correct" exactly as the specification of the clue says, and each counter holds what the non-exact positions leave of it |
| Clues.Clue.EvaluateEntry | mastermind.rb:388-390 | one position's flag is set and the counters move on to the next position |
| Clues.Clue.UnknownNumberTrue | mastermind.rb:393-400 | true, with the symbol's counter decremented, exactly when the counter is positive; otherwise false with the counters unchanged |
| Clues.Clue.SubtractFromCommonCount | mastermind.rb:402-404 | the symbol's counter goes down by one, a missing counter reading as 0 |
| Clues.Clue.AddClues | mastermind.rb:406-414 | each position's peg becomes Exact for an exact match, Partial for a correct number, and nil otherwise |
| Clues.Clue.ClueArray | mastermind.rb:416-418 | once the table is filled in, the list of table pegs is `Marks(guess, code)` |
| CodeBreaker.Filter | mastermind.rb:208-213 | filtering never lengthens the candidate list |
| CodeBreaker.FilterMembers | mastermind.rb:208-213 | a code is kept exactly when it is a candidate and its clue against the guess is the given clue |
| CodeBreaker.FilterStep | mastermind.rb:208-213 | one more candidate extends the filtered list by that candidate exactly when its clue is the given one |
| CodeBreaker.FilterAppend | mastermind.rb:208-213 | filtering works element by element, so it keeps the original order |
| CodeBreaker.FilterDrops | mastermind.rb:208-213 | a candidate the clue rules out makes the list strictly shorter |
| CodeBreaker.FilterProgress | mastermind.rb:208-213 | filtering by the clue the secret earns keeps the secret, and removes a guess that is not the secret |
| CodeBreaker.PartSizes | mastermind.rb:221-237 | one partition size per candidate considered |
| CodeBreaker.Score | mastermind.rb:222-227 | a guess's score, `score_count.values.max`: the largest partition size over the candidates' clues, at most the number of candidates and 0 when there are none |
| CodeBreaker.Scores | mastermind.rb:221-230 | one score per code |
| CodeBreaker.ScoresAt | mastermind.rb:221-230 | entry i of the score list is the score of code i |
| CodeBreaker.ScoreIsWorstCase | mastermind.rb:221-237 | no clue keeps more candidates than the score; with candidates left, some candidate's clue keeps exactly that many, so the score lies between 1 and the number of candidates; with none left it is 0 |
| CodeBreaker.ScoreUnique | mastermind.rb:221-237 | any value that bounds every clue's partition and is the size of a non-empty partition is the score |
| CodeBreaker.SelectScore | mastermind.rb:239-244 | selecting never lengthens the list |
| CodeBreaker.SelectMembers | mastermind.rb:239-244 | every code with the given score is selected |
| CodeBreaker.SelectOrigin | mastermind.rb:239-244 | each selected code comes from a code with that score, and every earlier code with that score is selected before it |
| CodeBreaker.SelectMembersIn | mastermind.rb:239-244 | every selected code is a code of the list |
| CodeBreaker.CollectMinScoreCodes | mastermind.rb:239-244 | a non-empty code list yields at least one minimum-score code |
| CodeBreaker.MinSelected | mastermind.rb:239-244 | some code with the minimum score is selected |
| CodeBreaker.ChooseNextGuess | mastermind.rb:246-250 | the choice is a minimum-score code; if some minimum-score code is a candidate, it is the first such candidate; otherwise it is the first minimum-score code |
| CodeBreaker.MinimaxChoice | mastermind.rb:239-250 | for any score list, the choice is a code of minimum score; it is the earliest candidate among those, or the earliest of them when none is a candidate |
| CodeBreaker.EarliestCandidate | mastermind.rb:246-250 | when some code with the score is a candidate, the choice is the earliest such candidate |
| CodeBreaker.EarliestMinimum | mastermind.rb:246-250 | when no code with the score is a candidate, the choice is the earliest code with that score |
| CodeBreaker.NextGuess | mastermind.rb:215-219 | the guess `find_next_guess` plays, the choice among the minimum-score codes of the initial set; it is always a code of the initial set |
| CodeBreaker.NextGuessIsMinimax | mastermind.rb:215-250 | the next guess is the code at some index k of the initial set; its score is the minimum; it is the earliest minimum-score candidate, or the earliest minimum-score code when no minimum-score code is a candidate |
| CodeBreaker.NextGuessScore | mastermind.rb:215-250 | the score of the next guess is the least score over the initial set |
| CodeBreaker.MaxOfValues | mastermind.rb:227 | the largest value of the hash, or 0 for an empty hash |
| CodeBreaker.ScoreOfCounts | mastermind.rb:223-236 | the largest count of a hash holding, for each clue, how many candidates earn it, is the score |
| CodeBreaker.ClueCountStep | mastermind.rb:223-237 | counting one more candidate under its clue keeps the hash equal to the per-clue sizes of the filtered candidates, with a key exactly for each clue that some candidate earns |
| CodeBreaker.ComputerCodeBreaker.constructor | mastermind.rb:184-188 | the opener is 1-1-2-2, the initial set is the whole code space, and every code is still a candidate |
| CodeBreaker.ComputerCodeBreaker.GetGuess | mastermind.rb:190-198 | on turn 1 it returns the current guess and changes nothing; later it records the clue, filters the candidates by it against the old guess, records the minimum-score codes and plays the minimax choice |
| CodeBreaker.ComputerCodeBreaker.EliminateImpossibleCodes | mastermind.rb:208-213 | the candidates become the codes whose clue against the current guess is the recorded clue, in order; none survive when no clue is recorded |
| CodeBreaker.ComputerCodeBreaker.FindNextGuess | mastermind.rb:215-219 | records the minimum-score codes and returns the minimax choice, a four-symbol code of the initial set |
| CodeBreaker.ComputerCodeBreaker.ScorePotentialGuesses | mastermind.rb:221-230 | returns the score of every code of the initial set, in order |
| CodeBreaker.ComputerCodeBreaker.ScoreGuess | mastermind.rb:223-237 | the largest number of candidates sharing one clue against the guess |
| Game.CharToI | mastermind.rb:279 | `to_i` of one character is the value of a decimal digit, and 0 for any other character |
| Game.ToIntArray | mastermind.rb:319-321 | one number per character |
| Game.InputValid | mastermind.rb:282-285 | `guess_valid?` and `user_code_valid?`: four characters whose `to_i` values are all among the numbers 1 to 6 |
| Game.InputValidIsDigits | mastermind.rb:282-285 | input is valid exactly when it has four characters, each a digit from 1 to 6 |
| Game.ValidInputIsCode | mastermind.rb:323-326 | the numbers of a valid input are a code of the game's code space |
| Game.CodeBreakerWins | mastermind.rb:508-512 | every peg is Exact and there are four of them |
| Game.CodeMakerWins | mastermind.rb:504-506 | the turn number is past 12 |
| Game.GameOver | mastermind.rb:500-502 | one of the two sides has won |
| Game.WinIffCracked | mastermind.rb:508-512 | for four-symbol codes, the code breaker wins on the clue exactly when the guess is the code |
| Game.Board.constructor | mastermind.rb:151-153 | a new board is at turn 1 |
| Game.Board.IncrementTurn | mastermind.rb:155-157 | the turn number goes up by one |
| Game.Game.constructor | mastermind.rb:463-487 | a game on a valid secret starts at turn 1 with a fresh computer code breaker holding the opener 1-1-2-2, whose initial set is the whole code space and whose candidates are all of it, the secret included, with no clue and no minimum-score codes recorded yet |
| Game.Game.PlayTurn | mastermind.rb:490-497 | one pass of the loop body: the turn advances by one and the clues are the clue of the played guess against the secret; on turn 1 the breaker's current guess is played and its candidates, recorded clue and minimum-score codes stay as they were; on later turns the breaker records the last clue, the candidates become those consistent with it, the minimum-score codes are recorded, and the guess is the minimax choice `NextGuess` over the candidates; the secret stays a candidate |
| Game.Game.GameLoop | mastermind.rb:489-498 | the loop ends after at most twelve guesses with the game over; the last clue is the clue of the last guess, a win exactly when that guess is the code; without a win the twelfth turn is over; the last guess is the opener 1-1-2-2 when the game ends on turn 1 and the minimax choice over the remaining candidates otherwise; the secret is never ruled out |

## Left out

- Terminal input and output are not modelled: the prompts, the rules text, the board display and its colours, and the end-of-game messages (`Rules`, `GameText`, `display_turn`, `end_of_game`, `game_winner`). Typed input is a parameter of the validation functions.
- The role choice (`ChooseGameRole`) is not modelled. The model takes the one configuration in which the computer breaks the code: the user is the code maker. The user as code breaker (`UserCodeBreaker#get_guess`) is modelled only through its validation test.
- The re-prompt recursion on invalid input and the replay through `Game.new` are interactive loops and are not modelled.
- The secret is the user's typed code, read by `get_user_code` and checked by `user_code_valid?`. The model takes the checked code as the parameter of `Game.Game.constructor`. Its precondition, four symbols from 1 to 6, is what `Game.ValidInputIsCode` shows valid input meets. The computer's random secret (`create_computer_code`, mastermind.rb:300-302) belongs to the other role and is not modelled.
- The bound of at most twelve turns holds by the turn limit. The stronger bound, that minimax always finds the secret within twelve guesses, would need all 1296 games to be played out and is not proved.
- Nil is modelled as follows:
  - the empty clue list of the first turn is `[]`;
  - the unset `previous_clue` is `None`;
  - `@min_scores`, nil until `find_next_guess` first runs, starts as `[]`;
  - the `Game`'s `@guess`, nil until the first `get_guess`, starts as `[]`, and nothing reads it before then;
  - a maximum or minimum over no values is 0.
- Game.Game.GameLoop: the first turn passes the empty list where Ruby passes nil. `get_guess` ignores that argument on turn 1, so nothing depends on it.
- Codes.AllPossibleCodes: the enumeration of the array while it grows relies on Ruby's `repeated_permutation` permuting only the original numbers, which holds for the game's length 4. The model states that result for every length and does not model how Ruby enumerates an array that grows during the enumeration; for lengths below 2 Ruby may walk the growing array itself, which the model does not capture.
