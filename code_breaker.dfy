/**
 * The computer as code breaker (class `ComputerCodeBreaker` of
 * mastermind.rb): Knuth's minimax strategy. It opens with 1-1-2-2. After
 * each clue it keeps only the candidates that would have produced that
 * clue. It then scores every code of the full code space by its worst-case
 * partition of the candidates and plays a code of minimum score,
 * preferring one that is still a candidate.
 */
module CodeBreaker {
  import opened RubyArrays
  import opened Codes
  import opened Clues

  /** The first guess, 1-1-2-2. */
  const Opener: Code := [1, 1, 2, 2]

  // ---------------------------------------------------------------------------
  // Filtering the candidates
  // ---------------------------------------------------------------------------

  /** The codes of `codes`, in order, whose clue against `guess` is `clue`. */
  function Filter(codes: seq<Code>, guess: Code, clue: seq<Peg>): (r: seq<Code>)
    ensures |r| <= |codes|
  {
    if codes == [] then []
    else
      var last := codes[|codes| - 1];
      Filter(codes[..|codes| - 1], guess, clue) + (if ClueOf(guess, last) == clue then [last] else [])
  }

  /** Filtering keeps exactly the codes consistent with the clue. */
  lemma {:induction false} FilterMembers(codes: seq<Code>, guess: Code, clue: seq<Peg>, x: Code)
    ensures x in Filter(codes, guess, clue) <==> x in codes && ClueOf(guess, x) == clue
  {
    if codes != [] {
      var init, last := codes[..|codes| - 1], codes[|codes| - 1];
      var matches := ClueOf(guess, last) == clue;
      var tail := if matches then [last] else [];
      assert Filter(codes, guess, clue) == Filter(init, guess, clue) + tail;
      FilterMembers(init, guess, clue, x);
      assert codes == init + [last];
      assert x in Filter(codes, guess, clue) <==> x in Filter(init, guess, clue) || (matches && x == last);
    }
  }

  /** Extending the list by one code extends the filtered list by that code when its clue matches. */
  lemma {:induction false} FilterStep(codes: seq<Code>, k: nat, guess: Code, clue: seq<Peg>)
    requires k < |codes|
    ensures Filter(codes[..k + 1], guess, clue) == Filter(codes[..k], guess, clue) + (if ClueOf(guess, codes[k]) == clue then [codes[k]] else [])
  {
    assert codes[..k + 1][..k] == codes[..k];
  }

  /** Filtering works element by element, so it keeps the original order. */
  lemma {:induction false} FilterAppend(a: seq<Code>, b: seq<Code>, guess: Code, clue: seq<Peg>)
    ensures Filter(a + b, guess, clue) == Filter(a, guess, clue) + Filter(b, guess, clue)
    decreases |b|
  {
    if b == [] {
      assert a + b == a;
    } else {
      var b' := b[..|b| - 1];
      assert (a + b)[..|a + b| - 1] == a + b';
      FilterAppend(a, b', guess, clue);
    }
  }

  /** A code the clue rules out makes the filtered list strictly shorter. */
  lemma {:induction false} FilterDrops(codes: seq<Code>, guess: Code, clue: seq<Peg>, x: Code)
    requires x in codes && ClueOf(guess, x) != clue
    ensures |Filter(codes, guess, clue)| < |codes|
  {
    var init := codes[..|codes| - 1];
    var last := codes[|codes| - 1];
    if last != x {
      assert codes == init + [last];
      FilterDrops(init, guess, clue, x);
    }
  }

  /**
   * Playing a candidate that is not the secret and filtering by the clue it
   * earns keeps the secret and removes at least the guess itself.
   */
  lemma {:induction false} FilterProgress(codes: seq<Code>, guess: Code, secret: Code)
    requires secret in codes && guess in codes
    requires |guess| == |secret| && guess != secret
    ensures secret in Filter(codes, guess, ClueOf(guess, secret))
    ensures guess !in Filter(codes, guess, ClueOf(guess, secret))
    ensures |Filter(codes, guess, ClueOf(guess, secret))| < |codes|
  {
    var clue := ClueOf(guess, secret);
    FilterMembers(codes, guess, clue, secret);
    FilterMembers(codes, guess, clue, guess);
    ClueAllExact(guess, secret);
    ClueSelf(guess);
    FilterDrops(codes, guess, clue, guess);
  }

  // ---------------------------------------------------------------------------
  // Scoring a guess
  // ---------------------------------------------------------------------------

  /** The size of the partition `x`'s clue picks out. */
  function PartSize(remaining: seq<Code>, guess: Code, x: Code): nat
  {
    |Filter(remaining, guess, ClueOf(guess, x))|
  }

  /** The partition size of the clue of each of the first `k` candidates, in candidate order. */
  function PartSizes(remaining: seq<Code>, guess: Code, k: nat): (s: seq<nat>)
    requires k <= |remaining|
    ensures |s| == k
    ensures forall j :: 0 <= j < k ==> s[j] <= |remaining|
  {
    if k == 0 then [] else PartSizes(remaining, guess, k - 1) + [PartSize(remaining, guess, remaining[k - 1])]
  }

  lemma {:induction false} PartSizesAt(remaining: seq<Code>, guess: Code, k: nat, i: nat)
    requires i < k <= |remaining|
    ensures PartSizes(remaining, guess, k)[i] == PartSize(remaining, guess, remaining[i])
  {
    if i < k - 1 {
      PartSizesAt(remaining, guess, k - 1, i);
      var pre := PartSizes(remaining, guess, k - 1);
      assert PartSizes(remaining, guess, k) == pre + [PartSize(remaining, guess, remaining[k - 1])];
      assert PartSizes(remaining, guess, k)[i] == pre[i];
    }
  }

  /**
   * The score of `guess`: the number of candidates in its largest class when
   * the candidates are grouped by the clue `guess` earns against them
   * (0, where Ruby has nil, when there are no candidates).
   */
  function Score(guess: Code, remaining: seq<Code>): (s: nat)
    ensures s <= |remaining|
    ensures remaining == [] ==> s == 0
  {
    MaxOf(PartSizes(remaining, guess, |remaining|))
  }

  /** The score of each code of `codes`, in order. */
  function Scores(codes: seq<Code>, remaining: seq<Code>): (s: seq<nat>)
    ensures |s| == |codes|
  {
    if codes == [] then [] else Scores(codes[..|codes| - 1], remaining) + [Score(codes[|codes| - 1], remaining)]
  }

  lemma {:induction false} ScoresAt(codes: seq<Code>, remaining: seq<Code>, i: nat)
    requires i < |codes|
    ensures Scores(codes, remaining)[i] == Score(codes[i], remaining)
  {
    if i < |codes| - 1 {
      ScoresAt(codes[..|codes| - 1], remaining, i);
    }
  }

  /**
   * The score bounds every clue's partition and, for a non-empty candidate
   * list, is attained by the clue of some candidate, so it lies between 1
   * and the number of candidates.
   */
  lemma {:induction false} ScoreIsWorstCase(guess: Code, remaining: seq<Code>)
    ensures forall clue :: |Filter(remaining, guess, clue)| <= Score(guess, remaining)
    ensures remaining == [] ==> Score(guess, remaining) == 0
    ensures remaining != [] ==> exists x :: x in remaining && PartSize(remaining, guess, x) == Score(guess, remaining)
    ensures remaining != [] ==> 1 <= Score(guess, remaining) <= |remaining|
  {
    var sizes := PartSizes(remaining, guess, |remaining|);
    forall clue ensures |Filter(remaining, guess, clue)| <= Score(guess, remaining) {
      var f := Filter(remaining, guess, clue);
      if f != [] {
        FilterMembers(remaining, guess, clue, f[0]);
        var i :| 0 <= i < |remaining| && remaining[i] == f[0];
        assert ClueOf(guess, remaining[i]) == clue;
        PartSizesAt(remaining, guess, |remaining|, i);
      }
    }
    if remaining != [] {
      var i :| 0 <= i < |remaining| && sizes[i] == Score(guess, remaining);
      PartSizesAt(remaining, guess, |remaining|, i);
      FilterMembers(remaining, guess, ClueOf(guess, remaining[i]), remaining[i]);
    }
  }

  /** Any value that bounds every partition and is the size of a non-empty one is the score. */
  lemma {:induction false} ScoreUnique(guess: Code, remaining: seq<Code>, s: int, clue: seq<Peg>)
    requires |Filter(remaining, guess, clue)| == s > 0
    requires forall c :: |Filter(remaining, guess, c)| <= s
    ensures s == Score(guess, remaining)
  {
    ScoreIsWorstCase(guess, remaining);
    if remaining != [] {
      var x :| x in remaining && PartSize(remaining, guess, x) == Score(guess, remaining);
    }
  }

  // ---------------------------------------------------------------------------
  // Choosing the next guess
  // ---------------------------------------------------------------------------

  /** The codes of `codes`, in order, whose score is `m`. */
  function SelectScore(codes: seq<Code>, scores: seq<nat>, m: nat): (r: seq<Code>)
    requires |codes| == |scores|
    ensures |r| <= |codes|
  {
    if codes == [] then []
    else
      var n := |codes| - 1;
      SelectScore(codes[..n], scores[..n], m) + (if scores[n] == m then [codes[n]] else [])
  }

  /** Every code whose score is `m` is selected. */
  lemma {:induction false} SelectMembers(codes: seq<Code>, scores: seq<nat>, m: nat, i: nat)
    requires |codes| == |scores| && i < |codes| && scores[i] == m
    ensures codes[i] in SelectScore(codes, scores, m)
  {
    var n := |codes| - 1;
    if i < n {
      SelectMembers(codes[..n], scores[..n], m, i);
    }
  }

  /**
   * The selected code at position `k` comes from an index `o` of `codes`
   * with score `m`, and every earlier code with score `m` was selected
   * before it.
   */
  lemma {:induction false} SelectOrigin(codes: seq<Code>, scores: seq<nat>, m: nat, k: nat)
    requires |codes| == |scores| && k < |SelectScore(codes, scores, m)|
    ensures exists o :: (0 <= o < |codes| && codes[o] == SelectScore(codes, scores, m)[k] && scores[o] == m &&
      forall j :: 0 <= j < o && scores[j] == m ==> codes[j] in SelectScore(codes, scores, m)[..k])
  {
    var n := |codes| - 1;
    var init := SelectScore(codes[..n], scores[..n], m);
    if k < |init| {
      SelectOrigin(codes[..n], scores[..n], m, k);
      var o :| 0 <= o < n && codes[..n][o] == init[k] && scores[..n][o] == m &&
        forall j :: 0 <= j < o && scores[..n][j] == m ==> codes[..n][j] in init[..k];
      SelectOriginEarlier(codes, scores, m, k, o);
    } else {
      SelectOriginLast(codes, scores, m, k);
    }
  }

  /** A code selected before the last position keeps the origin it has in the shorter list. */
  lemma {:induction false} SelectOriginEarlier(codes: seq<Code>, scores: seq<nat>, m: nat, k: nat, o: nat)
    requires |codes| == |scores| && codes != []
    requires k < |SelectScore(codes[..|codes| - 1], scores[..|codes| - 1], m)|
    requires var n := |codes| - 1; var init := SelectScore(codes[..n], scores[..n], m);
      o < n && codes[..n][o] == init[k] && scores[..n][o] == m &&
      forall j :: 0 <= j < o && scores[..n][j] == m ==> codes[..n][j] in init[..k]
    ensures k < |SelectScore(codes, scores, m)|
    ensures codes[o] == SelectScore(codes, scores, m)[k] && scores[o] == m
    ensures forall j :: 0 <= j < o && scores[j] == m ==> codes[j] in SelectScore(codes, scores, m)[..k]
  {
    var n := |codes| - 1;
    var r := SelectScore(codes, scores, m);
    var init := SelectScore(codes[..n], scores[..n], m);
    assert r[..|init|] == init;
    assert r[..k] == init[..k];
    forall j | 0 <= j < o && scores[j] == m ensures codes[j] in r[..k] {
      assert scores[..n][j] == scores[j] && codes[..n][j] == codes[j];
    }
  }

  /** A code selected at the last position comes from the last code, and every earlier code of that score is selected before it. */
  lemma {:induction false} SelectOriginLast(codes: seq<Code>, scores: seq<nat>, m: nat, k: nat)
    requires |codes| == |scores| && codes != []
    requires |SelectScore(codes[..|codes| - 1], scores[..|codes| - 1], m)| <= k < |SelectScore(codes, scores, m)|
    ensures var n := |codes| - 1;
      codes[n] == SelectScore(codes, scores, m)[k] && scores[n] == m &&
      forall j :: 0 <= j < n && scores[j] == m ==> codes[j] in SelectScore(codes, scores, m)[..k]
  {
    var n := |codes| - 1;
    var r := SelectScore(codes, scores, m);
    var init := SelectScore(codes[..n], scores[..n], m);
    assert r[..|init|] == init;
    forall j | 0 <= j < n && scores[j] == m ensures codes[j] in r[..k] {
      SelectMembers(codes[..n], scores[..n], m, j);
    }
  }

  /** `collect_min_score_codes`: the codes whose score is the minimum score, in order. */
  function CollectMinScoreCodes(codes: seq<Code>, scores: seq<nat>): (r: seq<Code>)
    requires |codes| == |scores|
    ensures codes != [] ==> r != []
  {
    MinSelected(codes, scores);
    SelectScore(codes, scores, MinOf(scores))
  }

  /** Some code has the minimum score, so at least one is selected. */
  lemma {:induction false} MinSelected(codes: seq<Code>, scores: seq<nat>)
    requires |codes| == |scores|
    ensures codes != [] ==> SelectScore(codes, scores, MinOf(scores)) != []
  {
    if codes != [] {
      var i :| 0 <= i < |scores| && scores[i] == MinOf(scores);
      SelectMembers(codes, scores, MinOf(scores), i);
    }
  }

  /**
   * `choose_next_guess`: the first of `minScores` that is still a candidate
   * (the first element of `min_scores & remaining_possible_codes`), or else
   * the first of `minScores`.
   */
  function ChooseNextGuess(minScores: seq<Code>, remaining: seq<Code>): (g: Code)
    requires minScores != []
    ensures g in minScores
    ensures (exists x :: x in minScores && x in remaining) ==>
      g in remaining && exists k :: 0 <= k < |minScores| && minScores[k] == g && forall j :: 0 <= j < k ==> minScores[j] !in remaining
    ensures (forall x :: x in minScores ==> x !in remaining) ==> g == minScores[0]
  {
    IntersectionHead(minScores, remaining);
    var common := Intersection(minScores, remaining);
    if |common| > 0 then common[0] else minScores[0]
  }

  /** The guess `find_next_guess` plays against the candidate list `remaining`. */
  function NextGuess(initialSet: seq<Code>, remaining: seq<Code>): (g: Code)
    requires initialSet != []
    ensures g in initialSet
  {
    var scores := Scores(initialSet, remaining);
    var g := ChooseNextGuess(CollectMinScoreCodes(initialSet, scores), remaining);
    SelectMembersIn(initialSet, scores, MinOf(scores), g);
    g
  }

  /**
   * `g` is a minimax choice among `codes` scored by `scores`: it is the code
   * at some index `k` whose score is the minimum. If some minimum-score code
   * is still a candidate, `g` is a candidate and no earlier minimum-score
   * code is one; otherwise no earlier code has the minimum score.
   */
  ghost predicate IsMinimaxChoice(codes: seq<Code>, scores: seq<nat>, remaining: seq<Code>, g: Code)
    requires |codes| == |scores|
  {
    exists k :: 0 <= k < |codes| && IsMinimaxChoiceAt(codes, scores, remaining, g, k)
  }

  /** `g` is the code at index `k`, and `k` is the index of the minimax choice. */
  ghost predicate IsMinimaxChoiceAt(codes: seq<Code>, scores: seq<nat>, remaining: seq<Code>, g: Code, k: nat)
    requires |codes| == |scores|
  {
    && k < |codes| && codes[k] == g && scores[k] == MinOf(scores)
    && (forall j :: 0 <= j < |codes| ==> scores[k] <= scores[j])
    && if exists j :: 0 <= j < |codes| && scores[j] == MinOf(scores) && codes[j] in remaining
       then g in remaining && forall j :: 0 <= j < k && scores[j] == MinOf(scores) ==> codes[j] !in remaining
       else forall j :: 0 <= j < k ==> scores[j] != MinOf(scores)
  }

  /** The next guess is the minimax choice of the initial set scored against the candidates. */
  lemma {:induction false} NextGuessIsMinimax(initialSet: seq<Code>, remaining: seq<Code>)
    requires initialSet != []
    ensures IsMinimaxChoice(initialSet, Scores(initialSet, remaining), remaining, NextGuess(initialSet, remaining))
  {
    MinimaxChoice(initialSet, Scores(initialSet, remaining), remaining);
  }

  /** The score of the next guess is the least score of the initial set. */
  lemma {:induction false} NextGuessScore(initialSet: seq<Code>, remaining: seq<Code>)
    requires initialSet != []
    ensures Score(NextGuess(initialSet, remaining), remaining) == MinOf(Scores(initialSet, remaining))
  {
    var scores := Scores(initialSet, remaining);
    NextGuessIsMinimax(initialSet, remaining);
    var k :| 0 <= k < |initialSet| && IsMinimaxChoiceAt(initialSet, scores, remaining, NextGuess(initialSet, remaining), k);
    ScoresAt(initialSet, remaining, k);
  }

  /** The choice among the codes of minimum score, for any list of scores. */
  lemma {:induction false} MinimaxChoice(codes: seq<Code>, scores: seq<nat>, remaining: seq<Code>)
    requires codes != [] && |codes| == |scores|
    ensures IsMinimaxChoice(codes, scores, remaining, ChooseNextGuess(CollectMinScoreCodes(codes, scores), remaining))
  {
    var m := MinOf(scores);
    MinSelected(codes, scores);
    var g := ChooseNextGuess(SelectScore(codes, scores, m), remaining);
    if exists j :: 0 <= j < |codes| && scores[j] == m && codes[j] in remaining {
      var j :| 0 <= j < |codes| && scores[j] == m && codes[j] in remaining;
      EarliestCandidate(codes, scores, m, remaining, j);
      var k :| 0 <= k < |codes| && codes[k] == g && scores[k] == m &&
        forall i :: 0 <= i < k && scores[i] == m ==> codes[i] !in remaining;
      assert IsMinimaxChoiceAt(codes, scores, remaining, g, k);
    } else {
      EarliestMinimum(codes, scores, m, remaining);
      var k :| 0 <= k < |codes| && codes[k] == g && scores[k] == m && forall i :: 0 <= i < k ==> scores[i] != m;
      assert IsMinimaxChoiceAt(codes, scores, remaining, g, k);
    }
  }

  /** When a code with score `m` is a candidate, the choice is the first such candidate. */
  lemma {:induction false} EarliestCandidate(codes: seq<Code>, scores: seq<nat>, m: nat, remaining: seq<Code>, j: nat)
    requires |codes| == |scores| && j < |codes| && scores[j] == m && codes[j] in remaining
    ensures SelectScore(codes, scores, m) != []
    ensures var g := ChooseNextGuess(SelectScore(codes, scores, m), remaining);
      g in remaining &&
      exists k :: (0 <= k < |codes| && codes[k] == g && scores[k] == m &&
        forall i :: 0 <= i < k && scores[i] == m ==> codes[i] !in remaining)
  {
    var mins := SelectScore(codes, scores, m);
    SelectMembers(codes, scores, m, j);
    assert codes[j] in mins && codes[j] in remaining;
    var g := ChooseNextGuess(mins, remaining);
    var pos :| 0 <= pos < |mins| && mins[pos] == g && forall i :: 0 <= i < pos ==> mins[i] !in remaining;
    SelectOrigin(codes, scores, m, pos);
    var k :| 0 <= k < |codes| && codes[k] == g && scores[k] == m &&
      forall i :: 0 <= i < k && scores[i] == m ==> codes[i] in mins[..pos];
    PrefixOutside(mins, pos, remaining);
  }

  /** When none of the first `pos` codes is a candidate, nothing in that prefix is one. */
  lemma {:induction false} PrefixOutside(mins: seq<Code>, pos: nat, remaining: seq<Code>)
    requires pos <= |mins| && forall i :: 0 <= i < pos ==> mins[i] !in remaining
    ensures forall x :: x in mins[..pos] ==> x !in remaining
  {
    forall x | x in mins[..pos] ensures x !in remaining {
      var q :| 0 <= q < pos && mins[..pos][q] == x;
      assert mins[q] == x;
    }
  }

  /** When no code with score `m` is a candidate, the choice is the first code with score `m`. */
  lemma {:induction false} EarliestMinimum(codes: seq<Code>, scores: seq<nat>, m: nat, remaining: seq<Code>)
    requires |codes| == |scores| && SelectScore(codes, scores, m) != []
    requires forall j :: 0 <= j < |codes| && scores[j] == m ==> codes[j] !in remaining
    ensures var g := ChooseNextGuess(SelectScore(codes, scores, m), remaining);
      exists k :: (0 <= k < |codes| && codes[k] == g && scores[k] == m &&
        forall i :: 0 <= i < k ==> scores[i] != m)
  {
    var mins := SelectScore(codes, scores, m);
    forall x | x in mins ensures x !in remaining {
      var q :| 0 <= q < |mins| && mins[q] == x;
      SelectOrigin(codes, scores, m, q);
    }
    SelectOrigin(codes, scores, m, 0);
    assert mins[..0] == [];
  }

  // ---------------------------------------------------------------------------
  // The stateful code breaker
  // ---------------------------------------------------------------------------

  /** `score_count.values.max`: the largest value of `m`, or 0 (Ruby's nil) when `m` is empty. */
  method MaxOfValues(m: map<seq<Peg>, int>) returns (max: int)
    ensures m == map[] ==> max == 0
    ensures m != map[] ==> (exists k :: k in m && m[k] == max) && forall k :: k in m ==> m[k] <= max
  {
    max := 0;
    var keys := m.Keys;
    var first := true;
    while keys != {}
      invariant keys <= m.Keys
      invariant first <==> keys == m.Keys
      invariant first ==> max == 0
      invariant !first ==> (exists k :: k in m.Keys - keys && m[k] == max) && forall k :: k in m.Keys - keys ==> m[k] <= max
      decreases |keys|
    {
      var k :| k in keys;
      if first || m[k] > max {
        max := m[k];
      }
      first := false;
      keys := keys - {k};
    }
  }

  class ComputerCodeBreaker {
    var guess: Code
    const initialSet: seq<Code>
    var remainingPossibleCodes: seq<Code>
    var previousClue: Option<seq<Peg>>
    var minScores: seq<Code>

    /** The initial set is the game's code space and the current guess has the game's length. */
    ghost predicate Valid()
      reads this
    {
      && initialSet != []
      && (forall i :: 0 <= i < |initialSet| ==> |initialSet[i]| == CodeLength)
      && |guess| == CodeLength
    }

    /** `initialize`: the opener 1-1-2-2 and every code of four symbols from 1 to 6 as candidates. */
    constructor ()
      ensures initialSet == AllCodes(NumberOptions, CodeLength)
      ensures Valid()
      ensures guess == Opener && remainingPossibleCodes == initialSet && previousClue == None && minScores == []
    {
      guess := Opener;
      var all := AllPossibleCodes(LowestNumber, HighestNumber, CodeLength);
      initialSet := all;
      remainingPossibleCodes := all;
      previousClue := None;
      minScores := [];
    }

    /**
     * `get_guess`: on turn 1 the current guess, with nothing else changed;
     * on a later turn, it records the clue, keeps only the candidates
     * consistent with it, and plays the minimax choice.
     */
    method GetGuess(turn: int, clue: seq<Peg>) returns (g: Code)
      requires Valid()
      modifies this
      ensures Valid()
      ensures g == guess
      ensures turn == 1 ==> && guess == old(guess)
                            && remainingPossibleCodes == old(remainingPossibleCodes)
                            && previousClue == old(previousClue) && minScores == old(minScores)
      ensures turn != 1 ==> && previousClue == Some(clue)
                            && remainingPossibleCodes == Filter(old(remainingPossibleCodes), old(guess), clue)
                            && minScores == CollectMinScoreCodes(initialSet, Scores(initialSet, remainingPossibleCodes))
                            && guess == NextGuess(initialSet, remainingPossibleCodes)
    {
      if turn == 1 {
        g := guess;
      } else {
        previousClue := Some(clue);
        EliminateImpossibleCodes(remainingPossibleCodes);
        g := FindNextGuess();
        guess := g;
      }
    }

    /** `eliminate_impossible_codes`: the codes of `codes` whose clue against the current guess is the recorded clue. */
    method EliminateImpossibleCodes(codes: seq<Code>)
      modifies this`remainingPossibleCodes
      ensures previousClue.Some? ==> remainingPossibleCodes == Filter(codes, guess, previousClue.value)
      ensures previousClue.None? ==> remainingPossibleCodes == []
    {
      var kept: seq<Code> := [];
      for k := 0 to |codes|
        invariant previousClue.Some? ==> kept == Filter(codes[..k], guess, previousClue.value)
        invariant previousClue.None? ==> kept == []
      {
        var potential := new Clue(guess, codes[k]);
        var potentialClue := potential.ReturnClues();
        if Some(potentialClue) == previousClue {
          kept := kept + [codes[k]];
        }
        if previousClue.Some? {
          FilterStep(codes, k, guess, previousClue.value);
        }
      }
      assert codes[..|codes|] == codes;
      remainingPossibleCodes := kept;
    }

    /** `find_next_guess`: scores the code space, records the minimum-score codes and chooses among them. */
    method FindNextGuess() returns (next: Code)
      requires Valid()
      modifies this`minScores
      ensures minScores == CollectMinScoreCodes(initialSet, Scores(initialSet, remainingPossibleCodes))
      ensures next == NextGuess(initialSet, remainingPossibleCodes)
      ensures next in initialSet && |next| == CodeLength
    {
      var guessScores := ScorePotentialGuesses();
      minScores := CollectMinScoreCodes(initialSet, guessScores);
      next := ChooseNextGuess(minScores, remainingPossibleCodes);
      SelectMembersIn(initialSet, guessScores, MinOf(guessScores), next);
    }

    /** `score_potential_guesses`: the score of every code of the initial set, in order. */
    method ScorePotentialGuesses() returns (guessScores: seq<nat>)
      ensures guessScores == Scores(initialSet, remainingPossibleCodes)
    {
      guessScores := [];
      for i := 0 to |initialSet|
        invariant guessScores == Scores(initialSet[..i], remainingPossibleCodes)
      {
        var score := ScoreGuess(initialSet[i]);
        assert initialSet[..i + 1][..i] == initialSet[..i];
        guessScores := guessScores + [score];
      }
      assert initialSet[..|initialSet|] == initialSet;
    }

    /**
     * The block `score_potential_guesses` runs for one code: it counts the
     * candidates per clue in a `Hash.new(0)` and takes the largest count.
     */
    method ScoreGuess(guess: Code) returns (score: nat)
      ensures score == Score(guess, remainingPossibleCodes)
    {
      var remaining := remainingPossibleCodes;
      var clueCount: map<seq<Peg>, int> := map[];
      for k := 0 to |remaining|
        invariant CountsClues(clueCount, remaining[..k], guess)
      {
        var result := new Clue(guess, remaining[k]);
        var clue := result.ReturnClues();
        ClueCountStep(remaining, k, guess, clueCount);
        clueCount := clueCount[clue := Lookup(clueCount, clue) + 1];
      }
      assert remaining[..|remaining|] == remaining;
      var max := MaxOfValues(clueCount);
      ScoreOfCounts(guess, remaining, clueCount, max);
      score := max;
    }
  }

  /** `counts` is the `Hash.new(0)` of how many of `codes` earn each clue against `guess`: it holds exactly the clues some code earns. */
  ghost predicate CountsClues(counts: map<seq<Peg>, int>, codes: seq<Code>, guess: Code)
  {
    && (forall c :: Lookup(counts, c) == |Filter(codes, guess, c)|)
    && (forall c :: c in counts <==> |Filter(codes, guess, c)| > 0)
  }

  /** Counting candidate `k` under its clue turns the per-clue counts of the first `k` candidates into those of the first `k + 1`. */
  lemma {:induction false} ClueCountStep(remaining: seq<Code>, k: nat, guess: Code, counts: map<seq<Peg>, int>)
    requires k < |remaining|
    requires CountsClues(counts, remaining[..k], guess)
    ensures var clue := ClueOf(guess, remaining[k]);
      CountsClues(counts[clue := Lookup(counts, clue) + 1], remaining[..k + 1], guess)
  {
    forall c ensures |Filter(remaining[..k + 1], guess, c)| == |Filter(remaining[..k], guess, c)| + (if c == ClueOf(guess, remaining[k]) then 1 else 0) {
      FilterStep(remaining, k, guess, c);
    }
  }

  /** The largest per-clue count of the candidates is the score. */
  lemma {:induction false} ScoreOfCounts(guess: Code, remaining: seq<Code>, counts: map<seq<Peg>, int>, max: int)
    requires CountsClues(counts, remaining, guess)
    requires counts == map[] ==> max == 0
    requires counts != map[] ==> (exists k :: k in counts && counts[k] == max) && forall k :: k in counts ==> counts[k] <= max
    ensures max == Score(guess, remaining)
  {
    ScoreIsWorstCase(guess, remaining);
    if remaining != [] {
      var first := ClueOf(guess, remaining[0]);
      FilterMembers(remaining, guess, first, remaining[0]);
      assert first in counts;
      var c :| c in counts && counts[c] == max;
      forall c' ensures |Filter(remaining, guess, c')| <= max {
        if c' in counts {
          assert counts[c'] <= max;
        }
      }
      ScoreUnique(guess, remaining, max, c);
    }
  }

  /** A code chosen from the minimum-score codes is a code of the initial set. */
  lemma {:induction false} SelectMembersIn(codes: seq<Code>, scores: seq<nat>, m: nat, x: Code)
    requires |codes| == |scores| && x in SelectScore(codes, scores, m)
    ensures x in codes
  {
    var k :| 0 <= k < |SelectScore(codes, scores, m)| && SelectScore(codes, scores, m)[k] == x;
    SelectOrigin(codes, scores, m, k);
  }
}
