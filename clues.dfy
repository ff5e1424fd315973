/**
 * The feedback a code maker gives for one guess (class `Clue` of mastermind.rb).
 *
 * The feedback is an ORDERED list of pegs: one peg per guess position that
 * earns one, in position order. A position whose symbol equals the code's
 * symbol there earns an Exact peg ("right number, right position"). A
 * position that does not is tested against a per-symbol counter; while the
 * counter is positive the position earns a Partial peg ("right number,
 * wrong position") and the counter goes down by one. The counter starts at
 * min(occurrences in guess, occurrences in code) less the number of exact
 * matches of that symbol.
 *
 * `ClueOf` states the result declaratively: the non-exact occurrences of a
 * symbol are ranked from left to right, and exactly those whose rank is below
 * the symbol's quota earn a Partial peg. Class `Clue` computes it the way the
 * source does, by mutating a counter hash and a per-index table.
 */
module Clues {
  import opened RubyArrays
  import opened Codes

  /** A feedback peg (the red and the empty dot of the display). */
  datatype Peg = Exact | Partial

  /** `number_and_position_true?`: position `i` is an exact match; an index past the end of `code` reads nil and never matches. */
  predicate ExactAt(guess: Code, code: Code, i: nat)
    requires i < |guess|
  {
    i < |code| && guess[i] == code[i]
  }

  /** The symbols at the exact-match positions among the first `k` positions of the guess, in order. */
  function ExactSymbols(guess: Code, code: Code, k: nat): seq<int>
    requires k <= |guess|
  {
    if k == 0 then []
    else ExactSymbols(guess, code, k - 1) + (if ExactAt(guess, code, k - 1) then [guess[k - 1]] else [])
  }

  /** The symbols at the other (non-exact) positions among the first `k`, in order. */
  function LooseSymbols(guess: Code, code: Code, k: nat): seq<int>
    requires k <= |guess|
  {
    if k == 0 then []
    else LooseSymbols(guess, code, k - 1) + (if ExactAt(guess, code, k - 1) then [] else [guess[k - 1]])
  }

  /** The value `count_common_numbers` stores for symbol `v`, or the Hash default 0 for a symbol not in both. */
  function CommonCount(guess: Code, code: Code, v: int): int
  {
    Min(Count(guess, v), Count(code, v))
  }

  /** The counter for `v` once every exact match has been subtracted: how many Partial pegs `v` may still earn. */
  function Quota(guess: Code, code: Code, v: int): int
  {
    CommonCount(guess, code, v) - Count(ExactSymbols(guess, code, |guess|), v)
  }

  /**
   * The peg position `i` earns, if any: Exact exactly at an exact match, and
   * Partial only at another position while its symbol has quota left.
   */
  function MarkAt(guess: Code, code: Code, i: nat): (r: Option<Peg>)
    requires i < |guess|
    ensures r == Some(Exact) <==> ExactAt(guess, code, i)
    ensures r == Some(Partial) ==> !ExactAt(guess, code, i) && Quota(guess, code, guess[i]) > 0
  {
    if ExactAt(guess, code, i) then Some(Exact)
    else if Count(LooseSymbols(guess, code, i), guess[i]) < Quota(guess, code, guess[i]) then Some(Partial)
    else None
  }

  /** The per-position pegs, nil where a position earns none. */
  function Marks(guess: Code, code: Code): (m: seq<Option<Peg>>)
    ensures |m| == |guess|
  {
    seq(|guess|, i requires 0 <= i < |guess| => MarkAt(guess, code, i))
  }

  /** The clue for `guess` against `code`: the earned pegs in position order. */
  function ClueOf(guess: Code, code: Code): (r: seq<Peg>)
    ensures |r| <= |guess|
  {
    Compact(Marks(guess, code))
  }

  /** The symbols at the positions that earn a Partial peg among the first `k`, in order. */
  function PartialSymbols(guess: Code, code: Code, k: nat): seq<int>
    requires k <= |guess|
  {
    if k == 0 then []
    else PartialSymbols(guess, code, k - 1) + (if MarkAt(guess, code, k - 1) == Some(Partial) then [guess[k - 1]] else [])
  }

  // ---------------------------------------------------------------------------
  // Accounting of the counters
  // ---------------------------------------------------------------------------

  /** Every guess position is either exact or not: each symbol's occurrences in the guess prefix split between the two lists. */
  lemma {:induction false} SplitSymbols(guess: Code, code: Code, k: nat, v: int)
    requires k <= |guess|
    ensures Count(ExactSymbols(guess, code, k), v) + Count(LooseSymbols(guess, code, k), v) == Count(guess[..k], v)
  {
    if k > 0 {
      SplitSymbols(guess, code, k - 1, v);
      SplitStep(guess, code, k, v);
    }
  }

  lemma {:induction false} SplitStep(guess: Code, code: Code, k: nat, v: int)
    requires 0 < k <= |guess|
    requires Count(ExactSymbols(guess, code, k - 1), v) + Count(LooseSymbols(guess, code, k - 1), v)
             == Count(guess[..k - 1], v)
    ensures Count(ExactSymbols(guess, code, k), v) + Count(LooseSymbols(guess, code, k), v) == Count(guess[..k], v)
  {
    var x := guess[k - 1];
    var e := ExactSymbols(guess, code, k - 1);
    var l := LooseSymbols(guess, code, k - 1);
    assert guess[..k] == guess[..k - 1] + [x];
    CountAppend(guess[..k - 1], [x], v);
    if ExactAt(guess, code, k - 1) {
      assert ExactSymbols(guess, code, k) == e + [x];
      assert LooseSymbols(guess, code, k) == l;
      CountAppend(e, [x], v);
    } else {
      assert ExactSymbols(guess, code, k) == e;
      assert LooseSymbols(guess, code, k) == l + [x];
      CountAppend(l, [x], v);
    }
  }

  /** An exact match consumes one occurrence of its symbol on the code side too. */
  lemma {:induction false} ExactWithinCode(guess: Code, code: Code, k: nat, v: int)
    requires k <= |guess|
    ensures Count(ExactSymbols(guess, code, k), v) <= Count(code[..Min(k, |code|)], v)
  {
    if k > 0 {
      ExactWithinCode(guess, code, k - 1, v);
      CountAppend(ExactSymbols(guess, code, k - 1), if ExactAt(guess, code, k - 1) then [guess[k - 1]] else [], v);
      if k <= |code| {
        assert code[..k][..k - 1] == code[..k - 1];
      } else {
        assert Min(k, |code|) == Min(k - 1, |code|);
      }
    }
  }

  /** A prefix has no more occurrences of a symbol than the whole list. */
  lemma {:induction false} CountPrefix(s: seq<int>, j: nat, v: int)
    requires j <= |s|
    ensures Count(s[..j], v) <= Count(s, v)
    decreases |s| - j
  {
    if j < |s| {
      CountPrefix(s, j + 1, v);
      assert s[..j + 1][..j] == s[..j];
    } else {
      assert s[..j] == s;
    }
  }

  /** The per-symbol counter never goes negative, and it never exceeds the non-exact occurrences of the symbol. */
  lemma {:induction false} QuotaBounds(guess: Code, code: Code, v: int)
    ensures 0 <= Quota(guess, code, v) <= Count(LooseSymbols(guess, code, |guess|), v)
  {
    SplitSymbols(guess, code, |guess|, v);
    ExactWithinCode(guess, code, |guess|, v);
    CountPrefix(code, Min(|guess|, |code|), v);
    assert guess[..|guess|] == guess;
  }

  /** Among the first `k` positions, symbol `v` earns as many Partial pegs as it has non-exact occurrences, up to its quota. */
  lemma {:induction false} PartialCount(guess: Code, code: Code, k: nat, v: int)
    requires k <= |guess|
    ensures Count(PartialSymbols(guess, code, k), v)
            == Min(Count(LooseSymbols(guess, code, k), v), Quota(guess, code, v))
  {
    QuotaBounds(guess, code, v);
    if k > 0 {
      PartialCount(guess, code, k - 1, v);
      PartialCountStep(guess, code, k, v);
    }
  }

  lemma {:induction false} PartialCountStep(guess: Code, code: Code, k: nat, v: int)
    requires 0 < k <= |guess|
    requires Count(PartialSymbols(guess, code, k - 1), v)
             == Min(Count(LooseSymbols(guess, code, k - 1), v), Quota(guess, code, v))
    ensures Count(PartialSymbols(guess, code, k), v)
            == Min(Count(LooseSymbols(guess, code, k), v), Quota(guess, code, v))
  {
    var i := k - 1;
    if ExactAt(guess, code, i) {
      assert PartialSymbols(guess, code, k) == PartialSymbols(guess, code, i);
      assert LooseSymbols(guess, code, k) == LooseSymbols(guess, code, i);
    } else {
      LooseStep(guess, code, k, v);
    }
  }

  /** A non-exact position adds its symbol to the non-exact symbols, and to the Partial symbols while under quota. */
  lemma {:induction false} LooseStep(guess: Code, code: Code, k: nat, v: int)
    requires 0 < k <= |guess| && !ExactAt(guess, code, k - 1)
    ensures var x, loose := guess[k - 1], Count(LooseSymbols(guess, code, k - 1), v);
      && Count(LooseSymbols(guess, code, k), v) == loose + (if x == v then 1 else 0)
      && Count(PartialSymbols(guess, code, k), v)
         == Count(PartialSymbols(guess, code, k - 1), v) + (if x == v && loose < Quota(guess, code, v) then 1 else 0)
  {
    var i := k - 1;
    var x := guess[i];
    var partial := MarkAt(guess, code, i) == Some(Partial);
    assert partial <==> Count(LooseSymbols(guess, code, i), x) < Quota(guess, code, x);
    CountAppend(LooseSymbols(guess, code, i), [x], v);
    var partTail := if partial then [x] else [];
    assert PartialSymbols(guess, code, k) == PartialSymbols(guess, code, i) + partTail;
    CountAppend(PartialSymbols(guess, code, i), partTail, v);
    CountSingleton(x, v);
  }

  /** A peg is one of two kinds. */
  lemma {:induction false} PegKinds(s: seq<Peg>)
    ensures |s| == Count(s, Exact) + Count(s, Partial)
  {
    if s != [] {
      PegKinds(s[..|s| - 1]);
      // One case per peg kind, so that each count's step is seen separately.
      if s[|s| - 1] == Exact {} else {}
    }
  }

  /** The pegs of the first `k` positions: one Exact per exact match, one Partial per Partial-marked position. */
  lemma {:induction false} PegCountsUpTo(guess: Code, code: Code, k: nat)
    requires k <= |guess|
    ensures Count(Compact(Marks(guess, code)[..k]), Exact) == |ExactSymbols(guess, code, k)|
    ensures Count(Compact(Marks(guess, code)[..k]), Partial) == |PartialSymbols(guess, code, k)|
  {
    if k > 0 {
      PegCountsUpTo(guess, code, k - 1);
      PegCountsStep(guess, code, k);
    }
  }

  lemma {:induction false} PegCountsStep(guess: Code, code: Code, k: nat)
    requires 0 < k <= |guess|
    requires Count(Compact(Marks(guess, code)[..k - 1]), Exact) == |ExactSymbols(guess, code, k - 1)|
    requires Count(Compact(Marks(guess, code)[..k - 1]), Partial) == |PartialSymbols(guess, code, k - 1)|
    ensures Count(Compact(Marks(guess, code)[..k]), Exact) == |ExactSymbols(guess, code, k)|
    ensures Count(Compact(Marks(guess, code)[..k]), Partial) == |PartialSymbols(guess, code, k)|
  {
    PegStep(guess, code, k, Exact);
    PegStep(guess, code, k, Partial);
  }

  /** Position `k - 1` adds one peg of kind `p` exactly when it is marked `p`. */
  lemma {:induction false} PegStep(guess: Code, code: Code, k: nat, p: Peg)
    requires 0 < k <= |guess|
    ensures Count(Compact(Marks(guess, code)[..k]), p)
      == Count(Compact(Marks(guess, code)[..k - 1]), p) + (if MarkAt(guess, code, k - 1) == Some(p) then 1 else 0)
  {
    var m := Marks(guess, code);
    var mark := MarkAt(guess, code, k - 1);
    CompactStep(m, k);
    var tail := if mark.Some? then [mark.value] else [];
    CountAppend(Compact(m[..k - 1]), tail, p);
    if mark.Some? {
      CountSingleton(mark.value, p);
    }
  }

  /**
   * The clue's accounting. With E the multiset of exactly matched symbols:
   * there is one Exact peg per exact position; the Partial pegs number the
   * multiset intersection of the guess's and the code's remaining symbols
   * (a symbol instance is never counted twice); and in all there are
   * sum over symbols of min(count in guess, count in code) pegs, which is at
   * most the length of either list.
   */
  lemma {:induction false} ClueAccounting(guess: Code, code: Code)
    ensures var e := multiset(ExactSymbols(guess, code, |guess|));
      && Count(ClueOf(guess, code), Exact) == |e|
      && Count(ClueOf(guess, code), Partial) == |(multiset(guess) - e) * (multiset(code) - e)|
      && |ClueOf(guess, code)| == |multiset(guess) * multiset(code)|
      && |ClueOf(guess, code)| <= |guess| && |ClueOf(guess, code)| <= |code|
  {
    var e := multiset(ExactSymbols(guess, code, |guess|));
    var mg, mc := multiset(guess), multiset(code);
    var p := PartialSymbols(guess, code, |guess|);
    PegCounts(guess, code);
    PartialMultiset(guess, code);
    assert |multiset(p)| == |p|;
    assert |e| == |ExactSymbols(guess, code, |guess|)|;
    MultisetSplit(mg, mc, e);
    PegKinds(ClueOf(guess, code));
  }

  /** The whole clue holds one Exact peg per exact position and one Partial peg per Partial-marked position. */
  lemma {:induction false} PegCounts(guess: Code, code: Code)
    ensures Count(ClueOf(guess, code), Exact) == |ExactSymbols(guess, code, |guess|)|
    ensures Count(ClueOf(guess, code), Partial) == |PartialSymbols(guess, code, |guess|)|
  {
    var m := Marks(guess, code);
    assert m[..|guess|] == m;
    PegCountsUpTo(guess, code, |guess|);
  }

  /** The Partial-marked symbols are the multiset intersection of what the exact matches leave of each list. */
  lemma {:induction false} PartialMultiset(guess: Code, code: Code)
    ensures var e := multiset(ExactSymbols(guess, code, |guess|));
      && e <= multiset(guess) && e <= multiset(code)
      && multiset(PartialSymbols(guess, code, |guess|)) == (multiset(guess) - e) * (multiset(code) - e)
  {
    var e := multiset(ExactSymbols(guess, code, |guess|));
    var mg, mc := multiset(guess), multiset(code);
    var p := PartialSymbols(guess, code, |guess|);
    forall v ensures multiset(p)[v] == ((mg - e) * (mc - e))[v] && e[v] <= mg[v] && e[v] <= mc[v]
    {
      SymbolMultiplicity(guess, code, v);
    }
    assert multiset(p) == (mg - e) * (mc - e);
  }

  lemma {:induction false} SymbolMultiplicity(guess: Code, code: Code, v: int)
    ensures var e := multiset(ExactSymbols(guess, code, |guess|));
      && e[v] <= multiset(guess)[v] && e[v] <= multiset(code)[v]
      && multiset(PartialSymbols(guess, code, |guess|))[v] == ((multiset(guess) - e) * (multiset(code) - e))[v]
  {
    SymbolAccounting(guess, code, v);
    MinMultiplicity(PartialSymbols(guess, code, |guess|), guess, code, ExactSymbols(guess, code, |guess|), v);
  }

  /** The per-symbol count identity of `SymbolAccounting`, restated on multisets. */
  lemma {:induction false} MinMultiplicity(p: seq<int>, g: seq<int>, c: seq<int>, e: seq<int>, v: int)
    requires Count(e, v) <= Count(g, v) && Count(e, v) <= Count(c, v)
    requires Count(p, v) == Min(Count(g, v) - Count(e, v), Count(c, v) - Count(e, v))
    ensures multiset(e)[v] <= multiset(g)[v] && multiset(e)[v] <= multiset(c)[v]
    ensures multiset(p)[v] == ((multiset(g) - multiset(e)) * (multiset(c) - multiset(e)))[v]
  {
    var mp, mg, mc, me := multiset(p), multiset(g), multiset(c), multiset(e);
    CountIsMultiplicity(p, v);
    CountIsMultiplicity(g, v);
    CountIsMultiplicity(c, v);
    CountIsMultiplicity(e, v);
    assert me[v] <= mg[v] && me[v] <= mc[v];
    MultisetMinAt(mg, mc, me, v);
  }

  /** The multiplicity of `v` in the intersection of what `e` leaves of two multisets. */
  lemma {:induction false} MultisetMinAt(mg: multiset<int>, mc: multiset<int>, e: multiset<int>, v: int)
    requires e[v] <= mg[v] && e[v] <= mc[v]
    ensures ((mg - e) * (mc - e))[v] == Min(mg[v] - e[v], mc[v] - e[v])
  {
  }

  /** Symbol `v`'s share of the clue: its exact matches fit in both lists, and its Partial pegs take up the rest of the smaller count. */
  lemma {:induction false} SymbolAccounting(guess: Code, code: Code, v: int)
    ensures var e := Count(ExactSymbols(guess, code, |guess|), v);
      && e <= Count(guess, v) && e <= Count(code, v)
      && Count(PartialSymbols(guess, code, |guess|), v) == Min(Count(guess, v) - e, Count(code, v) - e)
  {
    var n := |guess|;
    PartialCount(guess, code, n, v);
    QuotaBounds(guess, code, v);
    SplitSymbols(guess, code, n, v);
    ExactWithinCode(guess, code, n, v);
    CountPrefix(code, Min(n, |code|), v);
    assert guess[..n] == guess;
  }

  /** Taking the common part `e` out of both sides first splits the intersection into `e` and the rest. */
  lemma {:induction false} MultisetSplit(mg: multiset<int>, mc: multiset<int>, e: multiset<int>)
    requires e <= mg && e <= mc
    ensures mg * mc == e + (mg - e) * (mc - e)
    ensures |mg * mc| <= |mc|
  {
    assert mc == mg * mc + (mc - mg * mc);
  }

  /** A guess scored against itself earns one Exact peg per position. */
  lemma {:induction false} ClueSelf(guess: Code)
    ensures ClueOf(guess, guess) == seq(|guess|, _ => Exact)
  {
    var m := Marks(guess, guess);
    forall k | 0 <= k <= |guess|
      ensures Compact(m[..k]) == seq(k, _ => Exact)
    {
      ClueSelfUpTo(guess, k);
    }
    assert m[..|guess|] == m;
  }

  lemma {:induction false} ClueSelfUpTo(guess: Code, k: nat)
    requires k <= |guess|
    ensures Compact(Marks(guess, guess)[..k]) == seq(k, _ => Exact)
  {
    var m := Marks(guess, guess);
    if k > 0 {
      ClueSelfUpTo(guess, k - 1);
      assert m[..k][..k - 1] == m[..k - 1];
      assert m[..k][k - 1] == Some(Exact);
    }
  }

  /** At most one exact match per position; all `k` positions match exactly when there are `k` of them. */
  lemma {:induction false} ExactSymbolsBound(guess: Code, code: Code, k: nat)
    requires k <= |guess|
    ensures |ExactSymbols(guess, code, k)| <= k
    ensures |ExactSymbols(guess, code, k)| == k ==> forall i :: 0 <= i < k ==> ExactAt(guess, code, i)
  {
    if k > 0 {
      ExactSymbolsBound(guess, code, k - 1);
    }
  }

  /** For lists of equal length, the clue is all Exact pegs, one per position, exactly when guess and code are equal. */
  lemma {:induction false} ClueAllExact(guess: Code, code: Code)
    requires |guess| == |code|
    ensures ClueOf(guess, code) == seq(|guess|, _ => Exact) <==> guess == code
  {
    if guess == code {
      ClueSelf(guess);
    }
    if ClueOf(guess, code) == seq(|guess|, _ => Exact) {
      CountAll(ClueOf(guess, code), Exact);
      PegCounts(guess, code);
      ExactSymbolsBound(guess, code, |guess|);
      forall i | 0 <= i < |guess| ensures guess[i] == code[i] {
        assert ExactAt(guess, code, i);
      }
    }
  }

  /** A position earns a Partial peg only when it is not an exact match and its symbol occurs somewhere in the code. */
  lemma {:induction false} PartialSymbolInCode(guess: Code, code: Code, i: nat)
    requires i < |guess|
    ensures MarkAt(guess, code, i) == Some(Partial) ==> !ExactAt(guess, code, i) && guess[i] in code
  {
    var v := guess[i];
    if MarkAt(guess, code, i) == Some(Partial) {
      CountIsMultiplicity(code, v);
      assert Count(code, v) > 0;
    }
  }

  /** The exact matches do not depend on which side is the code. */
  lemma {:induction false} ExactSymbolsSwap(guess: Code, code: Code, k: nat)
    requires |guess| == |code| && k <= |guess|
    ensures ExactSymbols(guess, code, k) == ExactSymbols(code, guess, k)
  {
    if k > 0 {
      ExactSymbolsSwap(guess, code, k - 1);
    }
  }

  /**
   * For lists of equal length, swapping guess and code leaves the number of
   * Exact and of Partial pegs unchanged. (The peg ORDER can change: see
   * PartialBeforeExact and ExactBeforePartial.)
   */
  lemma {:induction false} ClueCountsSymmetric(guess: Code, code: Code)
    requires |guess| == |code|
    ensures multiset(ClueOf(guess, code)) == multiset(ClueOf(code, guess))
  {
    ExactSymbolsSwap(guess, code, |guess|);
    PegCounts(guess, code);
    PegCounts(code, guess);
    PartialMultiset(guess, code);
    PartialMultiset(code, guess);
    var e := multiset(ExactSymbols(guess, code, |guess|));
    var mg, mc := multiset(guess), multiset(code);
    assert (mg - e) * (mc - e) == (mc - e) * (mg - e);
    assert |multiset(PartialSymbols(guess, code, |guess|))| == |multiset(PartialSymbols(code, guess, |guess|))|;
    PegMultiset(ClueOf(guess, code), ClueOf(code, guess));
  }

  /** Two lists of pegs with as many Exact and as many Partial pegs hold the same pegs. */
  lemma {:induction false} PegMultiset(a: seq<Peg>, b: seq<Peg>)
    requires Count(a, Exact) == Count(b, Exact) && Count(a, Partial) == Count(b, Partial)
    ensures multiset(a) == multiset(b)
  {
    CountIsMultiplicity(a, Exact);
    CountIsMultiplicity(b, Exact);
    CountIsMultiplicity(a, Partial);
    CountIsMultiplicity(b, Partial);
    forall p: Peg ensures multiset(a)[p] == multiset(b)[p] {
      // One case per peg kind, so that each kind's count identity is used separately.
      if p == Exact {} else {}
    }
  }

  /** The marks of a four-position guess, position by position. */
  lemma {:induction false} MarksFour(guess: Code, code: Code)
    requires |guess| == 4
    ensures Marks(guess, code) == [MarkAt(guess, code, 0), MarkAt(guess, code, 1), MarkAt(guess, code, 2), MarkAt(guess, code, 3)]
  {
    var m := Marks(guess, code);
    assert m[0] == MarkAt(guess, code, 0) && m[1] == MarkAt(guess, code, 1);
    assert m[2] == MarkAt(guess, code, 2) && m[3] == MarkAt(guess, code, 3);
  }

  /** Compacting a literal list of four marks. */
  lemma {:induction false} CompactFour(a: Option<Peg>, b: Option<Peg>, c: Option<Peg>, d: Option<Peg>)
    ensures Compact([a, b, c, d]) == Compact([a]) + Compact([b]) + Compact([c]) + Compact([d])
  {
    assert [a, b, c, d] == [a] + [b] + [c] + [d];
    CompactAppend([a] + [b] + [c], [d]);
    CompactAppend([a] + [b], [c]);
    CompactAppend([a], [b]);
  }

  /** Counting in a literal list of four. */
  lemma {:induction false} CountFour(a: int, b: int, c: int, d: int, x: int)
    ensures Count([a, b, c, d], x) == Count([a, b, c], x) + (if d == x then 1 else 0)
    ensures Count([a, b, c], x) == Count([a, b], x) + (if c == x then 1 else 0)
    ensures Count([a, b], x) == Count([a], x) + (if b == x then 1 else 0)
    ensures Count([a], x) == if a == x then 1 else 0
  {
    assert [a, b, c, d][..3] == [a, b, c];
    assert [a, b, c][..2] == [a, b];
    assert [a, b][..1] == [a];
    assert [a][..0] == [];
  }

  /** The clue of a four-position guess from the mark of each position. */
  lemma {:induction false} ClueFromMarks(g: Code, c: Code, m0: Option<Peg>, m1: Option<Peg>, m2: Option<Peg>, m3: Option<Peg>)
    requires |g| == 4
    requires MarkAt(g, c, 0) == m0 && MarkAt(g, c, 1) == m1 && MarkAt(g, c, 2) == m2 && MarkAt(g, c, 3) == m3
    ensures ClueOf(g, c) == Compact([m0]) + Compact([m1]) + Compact([m2]) + Compact([m3])
  {
    MarksFour(g, c);
    CompactFour(m0, m1, m2, m3);
  }

  /**
   * The clue is position-ordered, so, as a list, it depends on which side is
   * the code: guess 1-2-3-4 against code 5-6-3-1 gives Partial then Exact ...
   */
  lemma {:induction false} PartialBeforeExact()
    ensures ClueOf([1, 2, 3, 4], [5, 6, 3, 1]) == [Partial, Exact]
  {
    var g, c := [1, 2, 3, 4], [5, 6, 3, 1];
    PartialBeforeExactMarks();
    ClueFromMarks(g, c, Some(Partial), None, Some(Exact), None);
  }

  lemma {:induction false} PartialBeforeExactMarks()
    ensures var g, c := [1, 2, 3, 4], [5, 6, 3, 1];
      && MarkAt(g, c, 0) == Some(Partial) && MarkAt(g, c, 1) == None
      && MarkAt(g, c, 2) == Some(Exact) && MarkAt(g, c, 3) == None
  {
    PartialBeforeExactCounters();
  }

  lemma {:induction false} PartialBeforeExactCounters()
    ensures var g, c := [1, 2, 3, 4], [5, 6, 3, 1];
      && LooseSymbols(g, c, 1) == [1] && LooseSymbols(g, c, 3) == [1, 2]
      && ExactSymbols(g, c, 4) == [3]
      && Quota(g, c, 1) == 1 && Quota(g, c, 2) == 0 && Quota(g, c, 4) == 0
  {
    var g, c := [1, 2, 3, 4], [5, 6, 3, 1];
    CountFour(1, 2, 3, 4, 1); CountFour(1, 2, 3, 4, 2); CountFour(1, 2, 3, 4, 4);
    CountFour(5, 6, 3, 1, 1); CountFour(5, 6, 3, 1, 2); CountFour(5, 6, 3, 1, 4);
    CountFour(3, 0, 0, 0, 1); CountFour(3, 0, 0, 0, 2); CountFour(3, 0, 0, 0, 4);
    CountFour(1, 2, 0, 0, 4);
    assert ExactSymbols(g, c, 4) == [3];
  }

  /** ... while guess 5-6-3-1 against code 1-2-3-4 gives Exact then Partial. */
  lemma {:induction false} ExactBeforePartial()
    ensures ClueOf([5, 6, 3, 1], [1, 2, 3, 4]) == [Exact, Partial]
  {
    var g, c := [5, 6, 3, 1], [1, 2, 3, 4];
    ExactBeforePartialMarks();
    ClueFromMarks(g, c, None, None, Some(Exact), Some(Partial));
  }

  lemma {:induction false} ExactBeforePartialMarks()
    ensures var g, c := [5, 6, 3, 1], [1, 2, 3, 4];
      && MarkAt(g, c, 0) == None && MarkAt(g, c, 1) == None
      && MarkAt(g, c, 2) == Some(Exact) && MarkAt(g, c, 3) == Some(Partial)
  {
    ExactBeforePartialCounters();
  }

  lemma {:induction false} ExactBeforePartialCounters()
    ensures var g, c := [5, 6, 3, 1], [1, 2, 3, 4];
      && LooseSymbols(g, c, 1) == [5] && LooseSymbols(g, c, 3) == [5, 6]
      && ExactSymbols(g, c, 4) == [3]
      && Quota(g, c, 5) == 0 && Quota(g, c, 6) == 0 && Quota(g, c, 1) == 1
  {
    var g, c := [5, 6, 3, 1], [1, 2, 3, 4];
    CountFour(5, 6, 3, 1, 1); CountFour(5, 6, 3, 1, 5); CountFour(5, 6, 3, 1, 6);
    CountFour(1, 2, 3, 4, 1); CountFour(1, 2, 3, 4, 5); CountFour(1, 2, 3, 4, 6);
    CountFour(3, 0, 0, 0, 1); CountFour(3, 0, 0, 0, 5); CountFour(3, 0, 0, 0, 6);
    CountFour(5, 6, 0, 0, 1);
    assert ExactSymbols(g, c, 4) == [3];
  }

  /** The clue the rules text shows (mastermind.rb:28-30): guess 1-4-6-3 against code 1-3-4-1. */
  lemma {:induction false} RulesExample()
    ensures ClueOf([1, 4, 6, 3], [1, 3, 4, 1]) == [Exact, Partial, Partial]
  {
    var g, c := [1, 4, 6, 3], [1, 3, 4, 1];
    RulesExampleMarks();
    ClueFromMarks(g, c, Some(Exact), Some(Partial), None, Some(Partial));
  }

  lemma {:induction false} RulesExampleMarks()
    ensures var g, c := [1, 4, 6, 3], [1, 3, 4, 1];
      && MarkAt(g, c, 0) == Some(Exact) && MarkAt(g, c, 1) == Some(Partial)
      && MarkAt(g, c, 2) == None && MarkAt(g, c, 3) == Some(Partial)
  {
    RulesExampleCounters();
  }

  lemma {:induction false} RulesExampleCounters()
    ensures var g, c := [1, 4, 6, 3], [1, 3, 4, 1];
      && LooseSymbols(g, c, 1) == [] && LooseSymbols(g, c, 3) == [4, 6]
      && ExactSymbols(g, c, 4) == [1]
      && Quota(g, c, 4) == 1 && Quota(g, c, 6) == 0 && Quota(g, c, 3) == 1
  {
    var g, c := [1, 4, 6, 3], [1, 3, 4, 1];
    CountFour(1, 4, 6, 3, 4); CountFour(1, 4, 6, 3, 6); CountFour(1, 4, 6, 3, 3);
    CountFour(1, 3, 4, 1, 4); CountFour(1, 3, 4, 1, 6); CountFour(1, 3, 4, 1, 3);
    CountFour(1, 0, 0, 0, 4); CountFour(1, 0, 0, 0, 6); CountFour(1, 0, 0, 0, 3);
    CountFour(4, 6, 0, 0, 3);
    assert ExactSymbols(g, c, 4) == [1];
  }

  /**
   * Repeated symbols: guess 1-1-2-3 against code 1-2-2-4 matches exactly at
   * positions 0 and 2, which use up every shared symbol, so the clue is two
   * Exact pegs and nothing else.
   */
  lemma {:induction false} RepeatedSymbolsExample()
    ensures ClueOf([1, 1, 2, 3], [1, 2, 2, 4]) == [Exact, Exact]
  {
    var g, c := [1, 1, 2, 3], [1, 2, 2, 4];
    RepeatedSymbolsExampleMarks();
    ClueFromMarks(g, c, Some(Exact), None, Some(Exact), None);
  }

  lemma {:induction false} RepeatedSymbolsExampleMarks()
    ensures var g, c := [1, 1, 2, 3], [1, 2, 2, 4];
      && MarkAt(g, c, 0) == Some(Exact) && MarkAt(g, c, 1) == None
      && MarkAt(g, c, 2) == Some(Exact) && MarkAt(g, c, 3) == None
  {
    RepeatedSymbolsExampleCounters();
  }

  lemma {:induction false} RepeatedSymbolsExampleCounters()
    ensures var g, c := [1, 1, 2, 3], [1, 2, 2, 4];
      && LooseSymbols(g, c, 1) == [] && LooseSymbols(g, c, 3) == [1]
      && ExactSymbols(g, c, 4) == [1, 2]
      && Quota(g, c, 1) == 0 && Quota(g, c, 3) == 0
  {
    var g, c := [1, 1, 2, 3], [1, 2, 2, 4];
    CountFour(1, 1, 2, 3, 1); CountFour(1, 1, 2, 3, 3);
    CountFour(1, 2, 2, 4, 1); CountFour(1, 2, 2, 4, 3);
    CountFour(1, 2, 0, 0, 1); CountFour(1, 2, 0, 0, 3);
    assert ExactSymbols(g, c, 4) == [1, 2];
  }

  // ---------------------------------------------------------------------------
  // The imperative computation of class Clue
  // ---------------------------------------------------------------------------

  /** One entry of `index_hash`; `clueDisplay` is nil for a position that earns no peg. */
  datatype IndexEntry = IndexEntry(
    guessValue: int,
    codeValue: Option<int>,
    numberAndPositionCorrect: bool,
    numberCorrect: bool,
    clueDisplay: Option<Peg>)

  /** `code[index]`, nil past the end of the code. */
  function CodeValue(code: Code, i: nat): Option<int>
  {
    if i < |code| then Some(code[i]) else None
  }

  /** Whether position `i` has the right number: exact, or within its symbol's quota. */
  predicate NumberCorrectAt(guess: Code, code: Code, i: nat)
    requires i < |guess|
  {
    ExactAt(guess, code, i) || Count(LooseSymbols(guess, code, i), guess[i]) < Quota(guess, code, guess[i])
  }

  /** The counter for `v` after the first `k` exact matches have been subtracted. */
  function AfterExact(guess: Code, code: Code, k: nat, v: int): int
    requires k <= |guess|
  {
    CommonCount(guess, code, v) - Count(ExactSymbols(guess, code, k), v)
  }

  /** The counter for `v` after the first `k` non-exact positions have drawn on it. */
  function AfterLoose(guess: Code, code: Code, k: nat, v: int): int
    requires k <= |guess|
  {
    Quota(guess, code, v) - Min(Quota(guess, code, v), Count(LooseSymbols(guess, code, k), v))
  }

  /** Subtracting position `i`'s exact match (if any) moves the counters from `i` to `i + 1` exact matches. */
  lemma {:induction false} ExactCounterStep(guess: Code, code: Code, i: nat, before: map<int, int>, after: map<int, int>)
    requires i < |guess|
    requires forall v :: Lookup(before, v) == AfterExact(guess, code, i, v)
    requires after == if ExactAt(guess, code, i) then before[guess[i] := Lookup(before, guess[i]) - 1] else before
    ensures forall v :: Lookup(after, v) == AfterExact(guess, code, i + 1, v)
  {
    forall v ensures Lookup(after, v) == AfterExact(guess, code, i + 1, v) {
      var tail := if ExactAt(guess, code, i) then [guess[i]] else [];
      assert ExactSymbols(guess, code, i + 1) == ExactSymbols(guess, code, i) + tail;
      assert Lookup(before, v) == AfterExact(guess, code, i, v);
      CountAppend(ExactSymbols(guess, code, i), tail, v);
      if ExactAt(guess, code, i) {
        CountSingleton(guess[i], v);
      }
    }
  }

  /** Every counter of `m` holds its value after the first `k` non-exact positions. */
  ghost predicate LooseCounters(guess: Code, code: Code, k: nat, m: map<int, int>)
    requires k <= |guess|
  {
    forall v :: Lookup(m, v) == AfterLoose(guess, code, k, v)
  }

  /** The counters left by the exact matches are the counters before any non-exact position has drawn on them. */
  lemma {:induction false} LooseCountersStart(guess: Code, code: Code, m: map<int, int>)
    requires forall v :: Lookup(m, v) == Quota(guess, code, v)
    ensures LooseCounters(guess, code, 0, m)
  {
    forall v ensures Lookup(m, v) == AfterLoose(guess, code, 0, v) {
      QuotaBounds(guess, code, v);
    }
  }

  /**
   * No counter ends the second pass below zero. This follows from the shape
   * of `AfterLoose` alone: a non-exact position draws on its symbol's counter
   * only while it is positive. That the counters enter the pass non-negative
   * is `AfterExactNonNegative`.
   */
  lemma {:induction false} LooseCountersNonNegative(guess: Code, code: Code, m: map<int, int>)
    requires LooseCounters(guess, code, |guess|, m)
    ensures forall v :: Lookup(m, v) >= 0
  {
  }

  /**
   * During `subtract_true_true_values`, no counter goes below zero: after any
   * number `k` of positions, the exact matches of a symbol so far number at
   * most its common count, because each uses one occurrence on both sides.
   */
  lemma {:induction false} AfterExactNonNegative(guess: Code, code: Code, k: nat, v: int)
    requires k <= |guess|
    ensures AfterExact(guess, code, k, v) >= 0
  {
    SplitSymbols(guess, code, k, v);
    CountPrefix(guess, k, v);
    ExactWithinCode(guess, code, k, v);
    CountPrefix(code, Min(k, |code|), v);
  }

  /** Drawing on the counter at a right-number, non-exact position `i` moves the counters from `i` to `i + 1`. */
  lemma {:induction false} LooseCounterStep(guess: Code, code: Code, i: nat, before: map<int, int>, after: map<int, int>)
    requires i < |guess|
    requires forall v :: Lookup(before, v) == AfterLoose(guess, code, i, v)
    requires after == if !ExactAt(guess, code, i) && NumberCorrectAt(guess, code, i)
      then before[guess[i] := Lookup(before, guess[i]) - 1] else before
    ensures forall v :: Lookup(after, v) == AfterLoose(guess, code, i + 1, v)
  {
    forall v ensures Lookup(after, v) == AfterLoose(guess, code, i + 1, v) {
      LooseCounterStepAt(guess, code, i, before, after, v);
    }
  }

  lemma {:induction false} LooseCounterStepAt(guess: Code, code: Code, i: nat, before: map<int, int>, after: map<int, int>, v: int)
    requires i < |guess|
    requires Lookup(before, v) == AfterLoose(guess, code, i, v)
    requires after == if !ExactAt(guess, code, i) && NumberCorrectAt(guess, code, i)
      then before[guess[i] := Lookup(before, guess[i]) - 1] else before
    ensures Lookup(after, v) == AfterLoose(guess, code, i + 1, v)
  {
    QuotaBounds(guess, code, v);
    if ExactAt(guess, code, i) {
      assert LooseSymbols(guess, code, i + 1) == LooseSymbols(guess, code, i);
    } else {
      CountAppend(LooseSymbols(guess, code, i), [guess[i]], v);
      CountSingleton(guess[i], v);
    }
  }

  class Clue {
    const guess: Code
    const code: Code
    var commonNumbersCount: map<int, int>
    var indexHash: seq<IndexEntry>

    constructor (guess: Code, code: Code)
      ensures this.guess == guess && this.code == code
      ensures commonNumbersCount == map[] && indexHash == []
    {
      this.guess := guess;
      this.code := code;
      commonNumbersCount := map[];
      indexHash := [];
    }

    /** The index table has one entry per guess position with its symbol, the code's symbol and the exact flag. */
    ghost predicate Indexed()
      reads this
    {
      && |indexHash| == |guess|
      && forall i :: 0 <= i < |guess| ==>
           && indexHash[i].guessValue == guess[i]
           && indexHash[i].codeValue == CodeValue(code, i)
           && indexHash[i].numberAndPositionCorrect == ExactAt(guess, code, i)
    }

    /** The table as `evaluate_unknown_numbers` leaves it. */
    ghost predicate Evaluated()
      reads this
    {
      && Indexed()
      && forall i :: 0 <= i < |guess| ==> indexHash[i].numberCorrect == NumberCorrectAt(guess, code, i)
    }

    /**
     * `return_clues`: the pegs in position order (`remove_nil_values`, which
     * compacts `clue_array`; the first, discarded `clue_array` call of the
     * Ruby method has no effect and is not repeated here). The table and the
     * counters are left as `process_guess` fills them in.
     */
    method ReturnClues() returns (clues: seq<Peg>)
      modifies this
      ensures clues == ClueOf(guess, code)
      ensures Evaluated()
      ensures forall i :: 0 <= i < |guess| ==> indexHash[i].clueDisplay == MarkAt(guess, code, i)
      ensures LooseCounters(guess, code, |guess|, commonNumbersCount)
    {
      ProcessGuess();
      clues := Compact(ClueArray());
    }

    /**
     * `process_guess`: fills in the table (exact flags, "number correct"
     * flags and pegs) and leaves each counter at what the non-exact
     * positions leave of it.
     */
    method ProcessGuess()
      modifies this
      ensures Evaluated()
      ensures forall i :: 0 <= i < |guess| ==> indexHash[i].clueDisplay == MarkAt(guess, code, i)
      ensures LooseCounters(guess, code, |guess|, commonNumbersCount)
    {
      CountCommonNumbers();
      BuildIndexHash();
      SubtractTrueTrueValues();
      LooseCountersStart(guess, code, commonNumbersCount);
      EvaluateUnknownNumbers();
      AddClues();
    }

    /** `clue_array`: each position's peg or nil. */
    function ClueArray(): (a: seq<Option<Peg>>)
      reads this
      ensures Indexed() && (forall i :: 0 <= i < |guess| ==> indexHash[i].clueDisplay == MarkAt(guess, code, i))
              ==> a == Marks(guess, code)
    {
      seq(|indexHash|, i requires 0 <= i < |indexHash| reads this => indexHash[i].clueDisplay)
    }

    /** `count_common_numbers`: for each symbol of `guess & code`, the smaller of its two occurrence counts. */
    method CountCommonNumbers()
      modifies this`commonNumbersCount
      ensures forall v :: v in commonNumbersCount <==> v in guess && v in code
      ensures forall v :: Lookup(commonNumbersCount, v) == CommonCount(guess, code, v)
    {
      var common := Intersection(guess, code);
      var hash: map<int, int> := map[];
      for t := 0 to |common|
        invariant forall v :: v in hash <==> v in common[..t]
        invariant forall v :: v in hash ==> hash[v] == CommonCount(guess, code, v)
      {
        var number := common[t];
        var guessOccurrences := Count(guess, number);
        var codeOccurrences := Count(code, number);
        hash := hash[number := Min(guessOccurrences, codeOccurrences)];
        assert common[..t + 1] == common[..t] + [number];
      }
      assert common[..|common|] == common;
      commonNumbersCount := hash;
      forall v | !(v in guess && v in code) ensures CommonCount(guess, code, v) == 0 {
        CountIsMultiplicity(guess, v);
        CountIsMultiplicity(code, v);
      }
    }

    /** `build_index_hash`: one entry per guess position with its symbol, the code's symbol and the exact flag. */
    method BuildIndexHash()
      modifies this`indexHash
      ensures Indexed()
      ensures forall i :: 0 <= i < |guess| ==> !indexHash[i].numberCorrect && indexHash[i].clueDisplay == None
    {
      var hash: seq<IndexEntry> := [];
      for index := 0 to |guess|
        invariant |hash| == index
        invariant forall i :: 0 <= i < index ==>
          hash[i] == IndexEntry(guess[i], CodeValue(code, i), ExactAt(guess, code, i), false, None)
      {
        var entry := IndexEntry(guess[index], CodeValue(code, index), ExactAt(guess, code, index), false, None);
        hash := hash + [entry];
      }
      indexHash := hash;
    }

    /** `subtract_true_true_values`: one decrement of the counter per exact match. */
    method SubtractTrueTrueValues()
      requires Indexed()
      requires forall v :: Lookup(commonNumbersCount, v) == CommonCount(guess, code, v)
      modifies this`commonNumbersCount
      ensures forall v :: Lookup(commonNumbersCount, v) == Quota(guess, code, v)
    {
      for index := 0 to |indexHash|
        invariant forall v :: Lookup(commonNumbersCount, v) == AfterExact(guess, code, index, v)
      {
        ghost var before := commonNumbersCount;
        if indexHash[index].numberAndPositionCorrect {
          SubtractFromCommonCount(guess[index]);
        }
        ExactCounterStep(guess, code, index, before, commonNumbersCount);
      }
    }

    /** `evaluate_unknown_numbers`: the right-number flag of every position, taking the counter in index order. */
    method EvaluateUnknownNumbers()
      requires Indexed()
      requires forall i :: 0 <= i < |guess| ==> indexHash[i].clueDisplay == None
      requires LooseCounters(guess, code, 0, commonNumbersCount)
      modifies this`indexHash, this`commonNumbersCount
      ensures Evaluated()
      ensures forall i :: 0 <= i < |guess| ==> indexHash[i].clueDisplay == None
      ensures LooseCounters(guess, code, |guess|, commonNumbersCount)
    {
      for index := 0 to |indexHash|
        invariant EvaluatedUpTo(index)
        invariant LooseCounters(guess, code, index, commonNumbersCount)
      {
        EvaluateEntry(index);
      }
    }

    /** The table before the flags of positions `k` onward are set: indexed, no pegs yet, the first `k` flags set. */
    ghost predicate EvaluatedUpTo(k: nat)
      reads this
    {
      && Indexed()
      && (forall i :: 0 <= i < |guess| ==> indexHash[i].clueDisplay == None)
      && forall i :: 0 <= i < k && i < |guess| ==> indexHash[i].numberCorrect == NumberCorrectAt(guess, code, i)
    }

    /** The block `evaluate_unknown_numbers` runs for entry `index`. */
    method EvaluateEntry(index: nat)
      requires EvaluatedUpTo(index) && index < |guess|
      requires LooseCounters(guess, code, index, commonNumbersCount)
      modifies this`indexHash, this`commonNumbersCount
      ensures indexHash == old(indexHash)[index := old(indexHash[index]).(numberCorrect := NumberCorrectAt(guess, code, index))]
      ensures EvaluatedUpTo(index + 1)
      ensures LooseCounters(guess, code, index + 1, commonNumbersCount)
    {
      ghost var before := commonNumbersCount;
      var entry := indexHash[index];
      var correct;
      if entry.numberAndPositionCorrect {
        correct := true;
      } else {
        correct := UnknownNumberTrue(index);
      }
      indexHash := indexHash[index := entry.(numberCorrect := correct)];
      LooseCounterStep(guess, code, index, before, commonNumbersCount);
    }

    /** `unknown_number_true?`: a non-exact position has the right number while its symbol's counter is positive. */
    method UnknownNumberTrue(index: nat) returns (b: bool)
      requires index < |guess| && !ExactAt(guess, code, index)
      requires Lookup(commonNumbersCount, guess[index]) == AfterLoose(guess, code, index, guess[index])
      modifies this`commonNumbersCount
      ensures b == NumberCorrectAt(guess, code, index)
      ensures b ==> commonNumbersCount == old(commonNumbersCount)[guess[index] := old(Lookup(commonNumbersCount, guess[index])) - 1]
      ensures !b ==> commonNumbersCount == old(commonNumbersCount)
    {
      QuotaBounds(guess, code, guess[index]);
      if Lookup(commonNumbersCount, guess[index]) > 0 {
        SubtractFromCommonCount(guess[index]);
        b := true;
      } else {
        b := false;
      }
    }

    /** `subtract_from_common_count`: `common_numbers_count[v] -= 1` on a Hash whose default is 0. */
    method SubtractFromCommonCount(v: int)
      modifies this`commonNumbersCount
      ensures commonNumbersCount == old(commonNumbersCount)[v := old(Lookup(commonNumbersCount, v)) - 1]
    {
      commonNumbersCount := commonNumbersCount[v := Lookup(commonNumbersCount, v) - 1];
    }

    /** `add_clues`: an Exact peg for an exact position, a Partial peg for any other right-number position. */
    method AddClues()
      requires Evaluated()
      requires forall i :: 0 <= i < |guess| ==> indexHash[i].clueDisplay == None
      modifies this`indexHash
      ensures Evaluated()
      ensures forall i :: 0 <= i < |guess| ==> indexHash[i].clueDisplay == MarkAt(guess, code, i)
    {
      for index := 0 to |indexHash|
        invariant Evaluated()
        invariant forall i :: 0 <= i < |guess| ==>
          indexHash[i].clueDisplay == if i < index then MarkAt(guess, code, i) else None
      {
        var entry := indexHash[index];
        if entry.numberAndPositionCorrect {
          indexHash := indexHash[index := entry.(clueDisplay := Some(Exact))];
        } else if entry.numberCorrect {
          indexHash := indexHash[index := entry.(clueDisplay := Some(Partial))];
        }
      }
    }
  }
}
