/**
 * The game rules and the turn loop (classes `Board`, `UserCodeBreaker`,
 * `CodeMaker` and `Game` of mastermind.rb), with the computer as code
 * breaker and the secret code given as an input.
 *
 * Typed input is validated character by character: Ruby's `String#to_i`
 * on a one-character string gives the digit's value, and 0 for anything
 * that is not a digit.
 */
module Game {
  import opened RubyArrays
  import opened Codes
  import opened Clues
  import opened CodeBreaker

  /** `Board::MAX_TURN_NUMBER`. */
  const MaxTurnNumber: int := 12

  // ---------------------------------------------------------------------------
  // Validating typed codes
  // ---------------------------------------------------------------------------

  /** `ch.to_i` for a one-character string: the value of a decimal digit, 0 otherwise. */
  function CharToI(ch: char): (n: int)
    ensures 0 <= n <= 9
    ensures '0' <= ch <= '9' ==> n == ch as int - '0' as int
    ensures n != 0 ==> '1' <= ch <= '9'
  {
    if '0' <= ch <= '9' then ch as int - '0' as int else 0
  }

  /** `split('').map(&:to_i)`. */
  function ToIntArray(s: string): (r: seq<int>)
    ensures |r| == |s|
  {
    seq(|s|, i requires 0 <= i < |s| => CharToI(s[i]))
  }

  /**
   * `guess_valid?` and `user_code_valid?` (the two are the same test): four
   * characters, each of whose integer values is one of the board's numbers.
   */
  predicate InputValid(s: string)
  {
    |s| == CodeLength && forall n :: n in ToIntArray(s) ==> n in NumberOptions
  }

  /** Valid input is exactly four characters, each a digit from 1 to 6. */
  lemma {:induction false} InputValidIsDigits(s: string)
    ensures InputValid(s) <==> |s| == 4 && forall i :: 0 <= i < |s| ==> '1' <= s[i] <= '6'
  {
    var r := ToIntArray(s);
    if InputValid(s) {
      forall i | 0 <= i < |s| ensures '1' <= s[i] <= '6' {
        assert r[i] in r;
        var k :| 0 <= k < |NumberOptions| && NumberOptions[k] == r[i];
      }
    }
    if |s| == 4 && forall i :: 0 <= i < |s| ==> '1' <= s[i] <= '6' {
      forall n | n in r ensures n in NumberOptions {
        var i :| 0 <= i < |r| && r[i] == n;
        assert NumberOptions[n - 1] == n;
      }
    }
  }

  /** The numbers of a valid input form a code of the game's code space. */
  lemma {:induction false} ValidInputIsCode(s: string)
    requires InputValid(s)
    ensures ToIntArray(s) in AllCodes(NumberOptions, CodeLength)
  {
    var r := ToIntArray(s);
    forall i | 0 <= i < |r| ensures r[i] in NumberOptions {
      assert r[i] in r;
    }
    AllCodesMembers(NumberOptions, CodeLength, r);
  }

  // ---------------------------------------------------------------------------
  // Winning
  // ---------------------------------------------------------------------------

  /** `code_breaker_wins?`: every peg is an exact match and there are four of them. */
  predicate CodeBreakerWins(clues: seq<Peg>)
  {
    (forall i :: 0 <= i < |clues| ==> clues[i] == Exact) && |clues| == CodeLength
  }

  /** `code_maker_wins?`: the board has passed its last turn. */
  predicate CodeMakerWins(turnNumber: int)
  {
    turnNumber > MaxTurnNumber
  }

  /** `game_over?`. */
  predicate GameOver(turnNumber: int, clues: seq<Peg>)
  {
    CodeMakerWins(turnNumber) || CodeBreakerWins(clues)
  }

  /** For four-symbol codes, the code breaker wins on a clue exactly when the guess is the code. */
  lemma {:induction false} WinIffCracked(guess: Code, code: Code)
    requires |guess| == CodeLength && |code| == CodeLength
    ensures CodeBreakerWins(ClueOf(guess, code)) <==> guess == code
  {
    var clue := ClueOf(guess, code);
    var allExact := seq(|guess|, _ => Exact);
    ClueAllExact(guess, code);
    if CodeBreakerWins(clue) {
      assert clue == allExact;
    }
  }

  // ---------------------------------------------------------------------------
  // The board and the game
  // ---------------------------------------------------------------------------

  /** `Board`: the number of the turn being played. */
  class Board {
    var turnNumber: int

    constructor ()
      ensures turnNumber == 1
    {
      turnNumber := 1;
    }

    /** `increment_turn`. */
    method IncrementTurn()
      modifies this
      ensures turnNumber == old(turnNumber) + 1
    {
      turnNumber := turnNumber + 1;
    }
  }

  /** `Game`, with the computer breaking a given secret code. */
  class Game {
    const board: Board
    const code: Code
    const codeBreaker: ComputerCodeBreaker
    var guess: Code
    var clues: seq<Peg>

    /** The fresh board and code breaker that `play_game` hands to `game_loop`: turn 1, the opener, every code a candidate. */
    ghost predicate Ready()
      reads this, board, codeBreaker
    {
      && board.turnNumber == 1
      && codeBreaker.Valid()
      && codeBreaker.guess == Opener
      && codeBreaker.remainingPossibleCodes == codeBreaker.initialSet
      && code in codeBreaker.initialSet
      && |code| == CodeLength
    }

    /** A game on the given secret: a new board at turn 1 and a new computer code breaker over the whole code space. */
    constructor (secret: Code)
      requires IsCode(NumberOptions, CodeLength, secret)
      ensures Ready()
      ensures codeBreaker.initialSet == AllCodes(NumberOptions, CodeLength)
      ensures codeBreaker.previousClue == None && codeBreaker.minScores == []
      ensures code == secret && guess == [] && clues == []
      ensures fresh(board) && fresh(codeBreaker)
    {
      code := secret;
      board := new Board();
      codeBreaker := new ComputerCodeBreaker();
      guess := [];
      clues := [];
      AllCodesMembers(NumberOptions, CodeLength, secret);
    }

    /**
     * `game_loop`: the breaker guesses, the guess is marked against the
     * code and the turn advances, until one side has won. The loop stops
     * after at most twelve guesses; it ends with the clue of the last
     * guess, which is a win exactly when that guess is the code, and
     * otherwise only because the twelfth turn is over. The last guess is
     * the opener when the game ends on turn 1, and the minimax choice over
     * the remaining candidates otherwise. The secret is never ruled out.
     */
    method GameLoop()
      requires Ready()
      modifies this, board, codeBreaker
      ensures GameOver(board.turnNumber, clues)
      ensures clues == ClueOf(guess, code) && guess == codeBreaker.guess
      ensures CodeBreakerWins(clues) <==> guess == code
      ensures 2 <= board.turnNumber <= MaxTurnNumber + 1
      ensures !CodeBreakerWins(clues) ==> board.turnNumber == MaxTurnNumber + 1
      ensures board.turnNumber == 2 ==> guess == Opener
      ensures board.turnNumber > 2 ==> guess == NextGuess(codeBreaker.initialSet, codeBreaker.remainingPossibleCodes)
      ensures code in codeBreaker.remainingPossibleCodes
    {
      while true
        invariant TurnReady()
        invariant board.turnNumber == 1 ==> codeBreaker.guess == Opener
        decreases MaxTurnNumber - board.turnNumber
      {
        PlayTurn();
        if GameOver(board.turnNumber, clues) {
          WinIffCracked(guess, code);
          break;
        }
      }
    }

    /** The state at the start of a turn: the secret is still a candidate, and after turn 1 the last clue is that of the last guess. */
    ghost predicate TurnReady()
      reads this, board, codeBreaker
    {
      && 1 <= board.turnNumber <= MaxTurnNumber
      && codeBreaker.Valid() && |code| == CodeLength
      && code in codeBreaker.remainingPossibleCodes
      && (board.turnNumber > 1 ==> guess == codeBreaker.guess && clues == ClueOf(guess, code))
    }

    /**
     * One pass of the `game_loop` body: the breaker guesses, the guess is
     * marked against the code and the turn advances. Turn 1 plays the
     * opener. From turn 2 on, the breaker first keeps only the candidates
     * consistent with the last clue, which still include the secret, and
     * plays the minimax choice over them.
     */
    method PlayTurn()
      requires TurnReady()
      modifies this, board, codeBreaker
      ensures board.turnNumber == old(board.turnNumber) + 1
      ensures codeBreaker.Valid() && code in codeBreaker.remainingPossibleCodes
      ensures guess == codeBreaker.guess && clues == ClueOf(guess, code)
      ensures old(board.turnNumber) == 1 ==> && guess == old(codeBreaker.guess)
                                             && codeBreaker.remainingPossibleCodes == old(codeBreaker.remainingPossibleCodes)
                                             && codeBreaker.previousClue == old(codeBreaker.previousClue)
                                             && codeBreaker.minScores == old(codeBreaker.minScores)
      ensures old(board.turnNumber) > 1 ==> codeBreaker.previousClue == Some(old(clues))
      ensures old(board.turnNumber) > 1 ==>
        codeBreaker.remainingPossibleCodes == Filter(old(codeBreaker.remainingPossibleCodes), old(guess), old(clues))
      ensures old(board.turnNumber) > 1 ==> guess == NextGuess(codeBreaker.initialSet, codeBreaker.remainingPossibleCodes)
      ensures old(board.turnNumber) > 1 ==>
        codeBreaker.minScores == CollectMinScoreCodes(codeBreaker.initialSet, Scores(codeBreaker.initialSet, codeBreaker.remainingPossibleCodes))
    {
      var turn := board.turnNumber;
      label Turn:
      guess := codeBreaker.GetGuess(turn, clues);
      if turn > 1 {
        FilterMembers(old@Turn(codeBreaker.remainingPossibleCodes), old@Turn(codeBreaker.guess), clues, code);
      }
      var mark := new Clue(guess, code);
      clues := mark.ReturnClues();
      board.IncrementTurn();
    }
  }
}
